/** Whole bzip2 streams, there and back. */
module BzDecompress {
  import opened BitStream
  import opened BlockCodec
  import opened BlockDecoder
  import opened BzCompress
  import opened BzStream
  import opened Counting
  import opened Options
  import opened RunLength

  // ----- what a stream stands for

  /** A block as BZ2_bzCompress makes it: it stands for a text, and carries the CRC of that text. */
  ghost predicate Telling(p: Packed, level: nat, update: (nat, byte) -> nat)
    requires WordSized(update)
  {
    && Packs(p) && |p.bytes| <= 100000 * level && UnRle(p.bytes).Some?
    && CrcOver(update, 0xffff_ffff, UnRle(p.bytes).value) < WORD
    && p.crc == Final(CrcOver(update, 0xffff_ffff, UnRle(p.bytes).value))
  }

  ghost predicate AllTelling(packs: seq<Packed>, level: nat, update: (nat, byte) -> nat)
    requires WordSized(update)
  {
    forall k :: 0 <= k < |packs| ==> Telling(packs[k], level, update)
  }

  /** No block is too long for the level. */
  ghost predicate AllFit(packs: seq<Packed>, level: nat) {
    forall k :: 0 <= k < |packs| ==> |packs[k].bytes| <= 100000 * level
  }

  /** The text of the blocks. */
  ghost function Told(packs: seq<Packed>): seq<byte> {
    if packs == [] then []
    else Told(packs[..|packs| - 1]) + match UnRle(packs[|packs| - 1].bytes) case Some(t) => t case None => []
  }

  /** The bits from block `k` on. */
  ghost function From(packs: seq<Packed>, k: nat, end: Bits): Bits
    requires k <= |packs|
    decreases |packs| - k
  {
    if k == |packs| then end else packs[k].bits + From(packs, k + 1, end)
  }

  lemma {:induction false} JoinedFrom(packs: seq<Packed>, k: nat, end: Bits)
    requires k <= |packs|
    ensures Joined(packs) + end == Joined(packs[..k]) + From(packs, k, end)
    decreases |packs| - k
  {
    if k == |packs| {
      assert packs[..k] == packs;
    } else {
      JoinedFrom(packs, k + 1, end);
      assert packs[..k + 1][..k] == packs[..k];
      assert Joined(packs[..k + 1]) == Joined(packs[..k]) + packs[k].bits;
    }
  }

  lemma {:induction false} JoinedAll(packs: seq<Packed>, end: Bits)
    ensures Joined(packs) + end == From(packs, 0, end)
  {
    JoinedFrom(packs, 0, end);
    assert packs[..0] == [];
    assert Joined(packs[..0]) == [];
    assert [] + From(packs, 0, end) == From(packs, 0, end);
  }

  // ----- one block

  /** A byte with its lowest bit turned round. */
  function Flipped(c: byte): byte { if c % 2 == 0 then c + 1 else c - 1 }

  function Unmasked(c: byte, on: bool): byte { if on then Flipped(c) else c }

  /** What the run-length decoder is given: in a block marked as randomised, BZ_RAND_MASK is taken off. */
  function Delivered(block: BlockCodec.Block, mask: nat -> bool): (s: seq<byte>)
    ensures |s| == |block.bytes| + |block.beyond|
    ensures !block.start.randomised ==> s == block.bytes + block.beyond
  {
    var s := block.bytes + block.beyond;
    if !block.start.randomised then s
    else seq<byte>(|s|, i requires 0 <= i < |s| => Unmasked(s[i], mask(i)))
  }

  /** The run-length decoder called until the end of the block, with `space(i)` bytes of room in call `i`. */
  method DecodeText(bytes: seq<byte>, n: nat, update: (nat, byte) -> nat, space: nat -> nat)
    returns (ok: bool, output: seq<byte>, crc: nat)
    requires 1 <= n && n + 2 <= |bytes| && forall i :: space(i) >= 1
    ensures ok <==> UnRle(bytes[..n]).Some?
    ensures ok ==> output == UnRle(bytes[..n]).value
    ensures crc == CrcOver(update, 0xffff_ffff, output)
  {
    hide UnRle, CrcOver;
    var d := new Decoder(bytes, n, update);
    var corrupt, calls := false, 0;
    while !corrupt && !d.Finished()
      invariant d.Valid() && fresh(d) && d.bytes == bytes && d.saveNblock == n && d.update == update
      invariant corrupt ==> UnRle(d.Block()) == None
      decreases 259 * (n + 2) - |d.output|, if corrupt then 0 else 1, if d.Finished() then 0 else 1
    {
      corrupt := d.Produce(space(calls));
      calls := calls + 1;
    }
    if !corrupt { d.AllOut(); }
    ok, output, crc := !corrupt, d.output, d.calculatedBlockCRC;
  }

  // ----- the whole stream

  /** BZ2_bzDecompress with all of the input at hand, and output space in any pieces, on any well-formed stream: blocks
      encoded in any way, with any checksums, and any trailer. It is decoded to the text of its blocks if every block
      stands for a text and carries the CRC of it, and the trailer carries the CRC of them all. Any other is refused. */
  method Decompress(s: seq<byte>, update: (nat, byte) -> nat, mask: nat -> bool, space: (nat, nat) -> nat,
                    ghost level0: nat, ghost packs: seq<Packed>, ghost stored: nat, ghost rest: Bits)
    returns (r: Result<()>, output: seq<byte>)
    requires WordSized(update) && forall k, i :: space(k, i) >= 1
    requires 1 <= level0 <= 9 && AllPack(packs)
    ensures AllFit(packs, level0) && stored < WORD && ByteBits(s) == Header(level0) + Joined(packs) + Trailer(stored) + rest ==>
      if AllTelling(packs, level0, update) && stored == StreamCrc(packs) then r == Got(()) && output == Told(packs)
      else r == DataError
  {
    hide ByteBits, Header, Trailer, StreamCrc, AllPack, AllTelling, AllFit, Told, WordSized, Telling, Joined, Packs, UnRle, CrcOver;
    ghost var end := Trailer(stored) + rest;
    ghost var good := AllFit(packs, level0) && stored < WORD
                      && ByteBits(s) == Header(level0) + Joined(packs) + Trailer(stored) + rest;
    var rd := new BitReader(s);
    output := [];
    JoinedAll(packs, end);
    assert good ==> rd.Rest() == Header(level0) + From(packs, 0, end);
    var got := ReadHeader(rd, level0, From(packs, 0, end));
    if got.NeedInput? { return NeedInput, output; }
    if got.DataError? { return DataError, output; }
    var level := got.value;
    var tt := new int[100000 * level];
    var calculatedCombinedCRC: nat, currBlockNo: nat := 0, 0;
    NoneTold(packs, level0, update);
    while true
      invariant rd.Valid() && fresh(rd) && fresh(tt) && calculatedCombinedCRC < WORD && tt.Length == 100000 * level && level <= 9
      invariant good ==> level == level0 && currBlockNo <= |packs| && rd.Rest() == From(packs, currBlockNo, end)
      invariant good ==> AllPack(packs[..currBlockNo]) && calculatedCombinedCRC == StreamCrc(packs[..currBlockNo])
      invariant good ==> AllTelling(packs[..currBlockNo], level0, update) && output == Told(packs[..currBlockNo])
      decreases |rd.Rest()|
    {
      ghost var p, next := Nothing(), rest;
      if good { p, next := Expected(packs, currBlockNo, level0, stored, rest); }
      var item := ReadItem(rd, level, tt, p, stored, next);
      if item.NeedInput? { return NeedInput, output; }
      if item.DataError? { return DataError, output; }
      match item.value {
        case End(storedCombinedCRC) =>
          if good { assert packs[..|packs|] == packs; }
          if calculatedCombinedCRC != storedCombinedCRC { return DataError, output; }
          return Got(()), output;
        case Next(block) =>
          var n := |block.bytes|;
          var ok, text, crc := DecodeText(Delivered(block, mask), n, update, i => space(currBlockNo, i));
          CrcSized(update, text);
          var calculatedBlockCRC := Final(crc);
          if good {
            assert Delivered(block, mask)[..n] == p.bytes;
            TellingExactly(packs, currBlockNo, level0, update);
            if ok && calculatedBlockCRC == block.start.crc { OneMore(packs, currBlockNo, level0, update); }
          }
          output := output + text;
          if !ok { return DataError, output; }
          if calculatedBlockCRC != block.start.crc { return DataError, output; }
          calculatedCombinedCRC := Combined(calculatedCombinedCRC, calculatedBlockCRC);
          currBlockNo := currBlockNo + 1;
      }
    }
  }

  ghost function Nothing(): Packed {
    Packed([], [], 0, Encoding([], Start(0, false, 0), BlockFormat.Head([], [], [])))
  }

  /** What stands in the stream after `k` blocks, and what follows that. */
  lemma Expected(packs: seq<Packed>, k: nat, level: nat, stored: nat, rest: Bits) returns (p: Packed, next: Bits)
    requires AllPack(packs) && AllFit(packs, level) && k <= |packs|
    ensures var end := Trailer(stored) + rest;
            if k < |packs| then p == packs[k] && |p.bytes| <= 100000 * level && Packs(p) && p.e.start.crc == p.crc
                                && !p.e.start.randomised && next == From(packs, k + 1, end) && From(packs, k, end) == p.bits + next
            else next == rest && From(packs, k, end) == Trailer(stored) + next
  {
    hide Encodes, Trailer;
    p, next := Nothing(), rest;
    if k < |packs| {
      p, next := packs[k], From(packs, k + 1, Trailer(stored) + rest);
    }
  }

  /** What the decoder finds out about a block decides whether it tells a text. */
  lemma TellingExactly(packs: seq<Packed>, k: nat, level: nat, update: (nat, byte) -> nat)
    requires WordSized(update) && k < |packs| && Packs(packs[k]) && |packs[k].bytes| <= 100000 * level
    ensures var t := UnRle(packs[k].bytes);
            if t.Some? then CrcOver(update, 0xffff_ffff, t.value) < WORD
                 && (Telling(packs[k], level, update) <==> packs[k].crc == Final(CrcOver(update, 0xffff_ffff, t.value)))
            else !Telling(packs[k], level, update)
    ensures !Telling(packs[k], level, update) ==> !AllTelling(packs, level, update)
  {
    hide UnRle, CrcOver, Packs, WordSized;
    if UnRle(packs[k].bytes).Some? { CrcSized(update, UnRle(packs[k].bytes).value); }
  }

  /** One more block has been decoded. */
  lemma OneMore(packs: seq<Packed>, k: nat, level: nat, update: (nat, byte) -> nat)
    requires WordSized(update) && k < |packs| && AllPack(packs[..k]) && AllTelling(packs[..k], level, update)
    requires Telling(packs[k], level, update)
    ensures AllPack(packs[..k + 1]) && StreamCrc(packs[..k + 1]) == Combined(StreamCrc(packs[..k]), packs[k].crc)
    ensures AllTelling(packs[..k + 1], level, update)
    ensures Told(packs[..k + 1]) == Told(packs[..k]) + UnRle(packs[k].bytes).value
  {
    hide UnRle, CrcOver, StreamCrc, AllPack, Packs;
    assert packs[..k + 1] == packs[..k] + [packs[k]];
    assert packs[..k + 1][..k] == packs[..k];
    PackPush(packs[..k], packs[k]);
  }

  lemma {:induction false} NoneTold(packs: seq<Packed>, level: nat, update: (nat, byte) -> nat)
    requires WordSized(update)
    ensures AllTelling(packs[..0], level, update) && AllPack(packs[..0]) && StreamCrc(packs[..0]) == 0 && Told(packs[..0]) == []
  {
    assert packs[..0] == [];
  }

  // ----- the round trip

  /** The blocks of a finished compression tell its input. */
  lemma {:induction false} CompleteTells(packs: seq<Packed>, blocks: seq<BzCompress.Block>, level: nat, update: (nat, byte) -> nat)
    requires WordSized(update) && AllPack(packs) && Matches(packs, blocks) && Sound(blocks, update, 100000 * level)
    ensures AllTelling(packs, level, update) && AllFit(packs, level) && Plain(blocks) == Some(Told(packs))
    decreases |packs|
  {
    hide UnRle, CrcOver, Packs;
    forall k | 0 <= k < |packs| ensures Telling(packs[k], level, update) && |packs[k].bytes| <= 100000 * level {
      assert packs[k].bytes == blocks[k].bytes && packs[k].crc == Final(blocks[k].crc);
    }
    if packs != [] {
      var n := |packs| - 1;
      CompleteTells(packs[..n], blocks[..n], level, update);
      assert packs[n].bytes == blocks[n].bytes;
    }
  }

  /** Everything: whatever sequence of calls a stream was compressed by, once BZ2_bzCompress has answered that it is
      finished, the bytes handed out decode to the bytes taken in, whatever pieces of space the decoder is given. */
  method RoundTrip(c: Compressor, mask: nat -> bool, space: (nat, nat) -> nat) returns (r: Result<()>, output: seq<byte>)
    requires c.Valid() && c.Complete() && forall k, i :: space(k, i) >= 1
    ensures r == Got(()) && output == c.taken
  {
    hide AllPack, Matches, Sound, Told, Plain, AllTelling, AllFit, UnRle, Header, Joined, Trailer, StreamCrc, ByteBits, Zeros;
    ghost var pad: nat;
    pad := Padding(c);
    CompleteTells(c.packs, c.blocks, c.level, c.rl.update);
    r, output := Decompress(c.output, c.rl.update, mask, space, c.level, c.packs, StreamCrc(c.packs), Zeros(pad));
  }

  lemma Padding(c: Compressor) returns (pad: nat)
    requires c.Valid() && c.Complete()
    ensures WordSized(c.rl.update) && 1 <= c.level <= 9 && AllPack(c.packs) && Matches(c.packs, c.blocks)
    ensures Plain(c.blocks) == Some(c.taken) && Sound(c.blocks, c.rl.update, 100000 * c.level)
    ensures ByteBits(c.output) == Stream(c.level, c.packs) + Zeros(pad)
  {
    hide AllPack, Matches, Sound, Plain, Stream, Compressor.Coded, Encoder.Valid, ByteBits, Zeros;
    pad :| PaddedTo(c.output, Stream(c.level, c.packs), pad);
  }
}
