/** The state machine of BZ2_bzCompress. */
module BzCompress {
  import opened BitStream
  import opened BzStream
  import opened Counting
  import opened Options
  import opened RunLength

  datatype Mode = Idle | Running | Flushing | Finishing

  datatype Phase = Input | Output

  datatype Action = Run_ | Flush | Finish

  datatype Answer = RunOk | FlushOk | FinishOk | StreamEnd | ParamError | SequenceError

  /** A block handed to BZ2_compressBlock, with its CRC before it is finalised. */
  datatype Block = Block(bytes: seq<byte>, crc: nat)

  /** What a sequence of blocks stands for. */
  ghost function Plain(blocks: seq<Block>): Option<seq<byte>> {
    if blocks == [] then Some([])
    else
      match (Plain(blocks[..|blocks| - 1]), UnRle(blocks[|blocks| - 1].bytes))
      case (Some(s), Some(t)) => Some(s + t)
      case (_, _) => None
  }

  lemma {:induction false} PlainPush(blocks: seq<Block>, b: Block)
    ensures Plain(blocks).Some? && UnRle(b.bytes).Some? ==> Plain(blocks + [b]) == Some(Plain(blocks).value + UnRle(b.bytes).value)
  {
    assert (blocks + [b])[..|blocks|] == blocks;
  }

  /** Every block carries the CRC of its text, and is never as long as the nominal block size. */
  ghost predicate Sound(blocks: seq<Block>, update: (nat, byte) -> nat, limit: nat) {
    forall k :: 0 <= k < |blocks| ==>
      0 < |blocks[k].bytes| < limit && UnRle(blocks[k].bytes).Some?
      && blocks[k].crc == CrcOver(update, 0xffff_ffff, UnRle(blocks[k].bytes).value)
  }

  lemma SoundPush(blocks: seq<Block>, b: Block, update: (nat, byte) -> nat, limit: nat)
    requires Sound(blocks, update, limit) && 0 < |b.bytes| < limit && UnRle(b.bytes).Some?
    requires b.crc == CrcOver(update, 0xffff_ffff, UnRle(b.bytes).value)
    ensures Sound(blocks + [b], update, limit)
  {
    hide UnRle, CrcOver;
  }

  /** The encoded blocks are these blocks. */
  ghost predicate Matches(packs: seq<Packed>, blocks: seq<Block>) {
    && |packs| == |blocks|
    && forall k :: 0 <= k < |blocks| ==>
         blocks[k].crc < WORD && packs[k].bytes == blocks[k].bytes && packs[k].crc == Final(blocks[k].crc)
  }

  lemma MatchPush(packs: seq<Packed>, blocks: seq<Block>, p: Packed, b: Block)
    requires Matches(packs, blocks) && b.crc < WORD && p.bytes == b.bytes && p.crc == Final(b.crc)
    ensures Matches(packs + [p], blocks + [b])
  {
  }

  /** Blocks have been added, all of them full, but for the last one if `short`. */
  ghost predicate Grown(was: seq<Block>, now: seq<Block>, full: int, short: bool) {
    was <= now && forall k :: |was| <= k < |now| - (if short then 1 else 0) ==> |now[k].bytes| >= full
  }

  lemma NotGrown(a: seq<Block>, full: int, short: bool)
    ensures Grown(a, a, full, short)
  {
  }

  lemma GrownOn(a: seq<Block>, b: seq<Block>, c: seq<Block>, full: int, short: bool)
    requires Grown(a, b, full, false) && Grown(b, c, full, short)
    ensures Grown(a, c, full, short) && Grown(a, c, full, true)
  {
    forall k | |a| <= k < |c| - (if short then 1 else 0) ensures |c[k].bytes| >= full {
      if k < |b| { assert c[k] == b[k]; }
    }
  }

  /** Input left, a run not yet written, whether a block is being filled, and bytes not yet handed out. */
  datatype Distance = Distance(input: nat, run: bool, phase: Phase, unsent: int)

  /** Less is left to do, in this order of importance. */
  predicate Shorter(a: Distance, b: Distance) {
    || a.input < b.input
    || (a.input == b.input && !a.run && b.run)
    || (a.input == b.input && a.run == b.run && a.phase == Output && b.phase == Input)
    || (a.input == b.input && a.run == b.run && a.phase == b.phase && a.unsent < b.unsent)
  }

  /** A byte was taken or handed out. */
  predicate Moved(given: seq<byte>, left: seq<byte>, before: seq<byte>, after: seq<byte>) {
    |left| < |given| || |before| < |after|
  }

  class Compressor {
    const rl: Encoder
    const level: nat
    const workFactor: int
    /** The bit buffer and zbits, which here keeps the bytes of all blocks. */
    const w: BitWriter
    const nblockMAX: nat
    var mode: Mode
    var phase: Phase
    var availInExpect: nat
    var numZ: nat
    var stateOutPos: nat
    /** The caller's buffers: what is left of the input, and of the output space. */
    var input: seq<byte>
    var availOut: nat
    /** What has been copied to the caller so far. */
    var output: seq<byte>
    /** How many bytes of zbits belong to earlier blocks. */
    var zbase: nat
    var blockNo: nat
    var combinedCRC: nat
    /** The blocks as they were encoded. */
    ghost var packs: seq<Packed>
    /** Blocks finished so far, and stream trailers written. */
    var blocks: seq<Block>
    var trailers: nat
    /** All input taken so far. */
    ghost var taken: seq<byte>

    ghost predicate Valid()
      reads this, rl, rl.block, rl.inUse, w
    {
      && rl.Valid() && 1 <= level <= 9 && nblockMAX + 19 == rl.block.Length == 100000 * level && WordSized(rl.update)
      && Coded()
      && stateOutPos <= numZ && rl.nblock <= nblockMAX + (if phase == Input then 4 else 9)
      && Sound(blocks, rl.update, rl.block.Length)
      && (phase == Input ==> Plain(blocks).Some? && taken == Plain(blocks).value + rl.Contents())
      && (phase == Output ==> Plain(blocks).Some? && taken == Plain(blocks).value + Pending())
      && (phase == Input ==> numZ == 0 && (rl.IsEmpty() ==> rl.nblock == 0))
      && (phase == Output && rl.IsEmpty() ==> mode != Running && availInExpect == 0)
      && (mode == Idle ==> phase == Output && rl.IsEmpty() && stateOutPos == numZ)
      && trailers == if phase == Output && rl.IsEmpty() && (mode == Finishing || mode == Idle) then 1 else 0
    }

    /** What has been encoded and handed over. */
    ghost predicate Coded()
      reads this`packs, this`blocks, this`combinedCRC, this`trailers, this`blockNo, this`phase, this`output, this`zbase,
            this`numZ, this`stateOutPos, w
    {
      Written() && Delivered() && blockNo >= 1
    }

    /** The stream has been started. */
    predicate Opened()
      reads this`blockNo, this`phase
    {
      blockNo > 1 || phase == Output
    }

    /** The bits written are those of the blocks, between header and trailer. */
    ghost predicate Written()
      reads this`packs, this`blocks, this`combinedCRC, this`trailers, this`blockNo, this`phase, w
    {
      && 1 <= level <= 9 && AllPack(packs) && Matches(packs, blocks) && combinedCRC == StreamCrc(packs)
      && (!Opened() ==> packs == [])
      && (trailers == 0 ==> w.Valid() && w.Contents() == (if Opened() then Header(level) else []) + Joined(packs))
      && (trailers == 1 ==> StreamBytes(w.zbits, level, packs))
    }

    /** The caller has every byte up to stateOutPos, in order. */
    ghost predicate Delivered()
      reads this`output, this`zbase, this`numZ, this`stateOutPos, w`zbits
    {
      stateOutPos <= numZ && zbase + numZ == |w.zbits| && output == w.zbits[..zbase + stateOutPos]
    }

    /** Between calls there is always something to wait for: input for a block that is not full, or space for bytes
        that are ready. */
    ghost predicate Waiting()
      reads this`phase, this`mode, this`stateOutPos, this`numZ, rl`nblock
    {
      if phase == Input then rl.nblock < nblockMAX else mode == Idle || stateOutPos < numZ
    }

    /** What holds between calls. */
    ghost predicate Ready()
      reads this, rl, rl.block, rl.inUse, w
    {
      Valid() && Waiting()
    }

    /** How far there is to go. */
    ghost function Ahead(): Distance
      reads this`input, this`phase, this`stateOutPos, this`numZ, rl
    {
      Distance(|input|, !rl.IsEmpty(), phase, numZ - stateOutPos)
    }

    /** The run not yet written to any block. */
    ghost function Pending(): seq<byte>
      requires rl.Valid()
      reads this, rl, rl.block, rl.inUse
    {
      if rl.stateInCh < NO_CHAR then Copies(rl.stateInCh, rl.stateInLen) else []
    }

    /** BZ2_bzCompressInit, for blocks of 100000 bytes times `blockSize100k`. */
    constructor (blockSize100k: nat, workFactor: int, update: (nat, byte) -> nat)
      requires 1 <= blockSize100k <= 9 && WordSized(update)
      ensures Ready() && mode == Running && taken == [] && output == [] && level == blockSize100k && rl.update == update
      ensures fresh(rl) && fresh(rl.block) && fresh(rl.inUse) && fresh(w)
    {
      hide *;
      rl := new Encoder(100000 * blockSize100k, update);
      level, this.workFactor := blockSize100k, workFactor;
      w := new BitWriter();
      nblockMAX := 100000 * blockSize100k - 19;
      output, zbase, blockNo, combinedCRC, packs := [], 0, 1, 0, [];
      mode, phase, availInExpect, numZ, stateOutPos := Running, Input, 0, 0, 0;
      input, availOut, blocks, trailers, taken := [], 0, [], 0, [];
      new;
      StartValid();
    }

    lemma StartValid()
      requires rl.Valid() && rl.Contents() == [] && rl.IsEmpty() && rl.nblock == 0 && 1 <= level <= 9 && WordSized(rl.update)
      requires w.Valid() && w.zbits == [] && w.Contents() == [] && output == [] && zbase == 0 && blockNo == 1 && combinedCRC == 0 && packs == []
      requires nblockMAX + 19 == rl.block.Length == 100000 * level && mode == Running && phase == Input && numZ == 0 && stateOutPos == 0
      requires taken == [] && blocks == [] && trailers == 0
      ensures Ready()
    {
      hide Encoder.Valid, UnRle, Encoder.Contents;
      assert Plain(blocks).value + rl.Contents() == [];
    }

    /** copy_input_until_stop */
    method CopyInput() returns (progress: bool)
      requires Valid() && phase == Input && (mode != Running ==> availInExpect == |input|)
      modifies this`input, this`availInExpect, this`taken, rl, rl.block, rl.inUse
      ensures Valid() && (mode != Running ==> availInExpect == |input|)
      ensures taken + input == old(taken + input) && |input| <= |old(input)|
      ensures rl.nblock >= nblockMAX || input == []
      ensures |input| == |old(input)| ==> rl.nblock == old(rl.nblock)
      ensures |input| == |old(input)| ==> rl.stateInCh == old(rl.stateInCh) && rl.stateInLen == old(rl.stateInLen)
      ensures mode == Running ==> availInExpect == old(availInExpect)
      ensures |input| < |old(input)| ==> !rl.IsEmpty()
      ensures progress <==> |input| < |old(input)|
      ensures progress <==> old(CanTake())
    {
      hide Valid;
      progress := false;
      while CanTake()
        invariant Valid() && (mode != Running ==> availInExpect == |input|)
        invariant taken + input == old(taken + input) && |input| <= |old(input)|
        invariant |input| == |old(input)| ==> rl.nblock == old(rl.nblock)
        invariant |input| == |old(input)| ==> rl.stateInCh == old(rl.stateInCh) && rl.stateInLen == old(rl.stateInLen)
        invariant mode == Running ==> availInExpect == old(availInExpect)
        invariant |input| < |old(input)| ==> !rl.IsEmpty()
        invariant progress <==> |input| < |old(input)|
        invariant progress ==> old(CanTake())
        decreases |input|
      {
        progress := true;
        TakeByte();
      }
    }

    predicate CanTake()
      reads this`input, rl`nblock
    {
      rl.nblock < nblockMAX && input != []
    }

    /** One byte of input. */
    method TakeByte()
      requires Valid() && phase == Input && CanTake() && (mode != Running ==> availInExpect == |input|)
      modifies this`input, this`availInExpect, this`taken, rl, rl.block, rl.inUse
      ensures Valid() && (mode != Running ==> availInExpect == |input|) && !rl.IsEmpty()
      ensures taken + input == old(taken + input) && |input| == |old(input)| - 1
      ensures mode == Running ==> availInExpect == old(availInExpect)
    {
      hide UnRle, Plain, Sound, Encoder.Holds, Coded, WordSized;
      ghost var c, t := rl.Contents(), taken;
      rl.AddChar(input[0]);
      assert Plain(blocks).value + (c + [input[0]]) == t + [input[0]];
      assert input == [input[0]] + input[1..];
      assert taken + [input[0]] + input[1..] == taken + input;
      taken := taken + [input[0]];
      input := input[1..];
      if mode != Running { availInExpect := availInExpect - 1; }
    }

    /** copy_output_until_stop */
    method CopyOutput() returns (progress: bool)
      requires Coded()
      modifies this`stateOutPos, this`availOut, this`output
      ensures Coded() && stateOutPos <= numZ && (stateOutPos == numZ || availOut == 0)
      ensures old(output) <= output && |output| + availOut == |old(output)| + old(availOut)
      ensures stateOutPos - old(stateOutPos) == old(availOut) - availOut >= 0
      ensures progress <==> availOut < old(availOut)
      ensures progress <==> old(availOut) > 0 && old(stateOutPos) < numZ
    {
      hide Written;
      progress := false;
      while availOut != 0 && stateOutPos < numZ
        invariant Delivered() && stateOutPos - old(stateOutPos) == old(availOut) - availOut >= 0
        invariant |output| == |old(output)| + (old(availOut) - availOut) && old(output) <= output
        invariant progress <==> availOut < old(availOut)
        decreases availOut
      {
        progress := true;
        output := output + [w.zbits[zbase + stateOutPos]];
        stateOutPos := stateOutPos + 1;
        availOut := availOut - 1;
      }
    }

    /** prepare_new_block */
    method PrepareNewBlock()
      requires Valid() && phase == Output && stateOutPos == numZ && !(rl.IsEmpty() && mode != Flushing)
      modifies this`phase, this`numZ, this`stateOutPos, this`zbase, this`blockNo, rl, rl.inUse
      ensures Valid() && phase == Input && rl.nblock == 0
      ensures rl.stateInCh == old(rl.stateInCh) && rl.stateInLen == old(rl.stateInLen)
    {
      hide UnRle, Plain, Sound, Encoder.Holds, Coded, WordSized;
      rl.PrepareNewBlock();
      NextBlock();
      assert rl.Contents() == Pending();
    }

    /** The counters for the next block. */
    method NextBlock()
      requires Coded() && phase == Output && stateOutPos == numZ && trailers == 0
      modifies this`phase, this`numZ, this`stateOutPos, this`zbase, this`blockNo
      ensures Coded() && phase == Input && numZ == 0 && stateOutPos == 0
    {
      hide BitWriter.Valid, BitWriter.Contents, AllPack, Matches, Joined, Header;
      zbase := zbase + numZ;
      numZ, stateOutPos := 0, 0;
      blockNo := blockNo + 1;
      phase := Input;
    }

    /** BZ2_compressBlock: what is in the block is encoded, the first time after the stream header, the last time
        before the trailer; whole bytes are there for the caller. */
    method CompressBlock(last: bool)
      requires rl.Valid() && 1 <= level <= 9 && nblockMAX + 19 == rl.block.Length == 100000 * level && rl.nblock <= nblockMAX + 9
      requires Coded() && numZ == 0 && WordSized(rl.update)
      requires Sound(blocks, rl.update, rl.block.Length) && phase == Input && trailers == 0
      requires Plain(blocks).Some? && taken == Plain(blocks).value + rl.Contents()
      requires mode != Idle && (last <==> mode == Finishing && rl.IsEmpty())
      requires rl.IsEmpty() ==> mode != Running && availInExpect == 0
      modifies this`blocks, this`trailers, this`numZ, this`stateOutPos, this`phase, this`combinedCRC, this`packs, w
      ensures Valid() && phase == Output && (last ==> stateOutPos < numZ)
      ensures blocks == if rl.nblock > 0 then old(blocks) + [Block(rl.block[..rl.nblock], rl.blockCRC)] else old(blocks)
    {
      hide UnRle, Encoder.Holds, CrcOver, Plain, Sound, Coded, WordSized;
      PassedOn();
      EmitAll(last);
    }

    /** The bits of one call, and the counters for handing them out. */
    method EmitAll(last: bool)
      requires rl.Valid() && 1 <= level <= 9 && rl.nblock <= rl.block.Length == 100000 * level && WordSized(rl.update)
      requires Coded() && numZ == 0 && phase == Input && trailers == 0
      modifies this`blocks, this`trailers, this`numZ, this`stateOutPos, this`phase, this`combinedCRC, this`packs, w
      ensures Coded() && phase == Output && trailers == (if last then 1 else 0) && stateOutPos == 0 && (last ==> numZ > 0)
      ensures blocks == if rl.nblock > 0 then old(blocks) + [Block(rl.block[..rl.nblock], rl.blockCRC)] else old(blocks)
    {
      hide Encoder.Valid, Matches, AllPack, Joined, Header, StreamBytes, BitWriter.Valid, BitWriter.Contents, WordSized;
      assert output == w.zbits[..zbase];
      Emit(last);
      if last { trailers := trailers + 1; }
      stateOutPos := 0;
      numZ := |w.zbits| - zbase;
      phase := Output;
      assert Written() && Delivered();
    }

    /** The bits of one call. */
    method Emit(last: bool)
      requires rl.Valid() && 1 <= level <= 9 && rl.nblock <= rl.block.Length == 100000 * level && WordSized(rl.update)
      requires Written() && trailers == 0 && phase == Input && blockNo >= 1
      modifies this`blocks, this`combinedCRC, this`packs, w
      ensures blocks == if rl.nblock > 0 then old(blocks) + [Block(rl.block[..rl.nblock], rl.blockCRC)] else old(blocks)
      ensures AllPack(packs) && Matches(packs, blocks) && combinedCRC == StreamCrc(packs)
      ensures !last ==> w.Valid() && w.Contents() == Header(level) + Joined(packs)
      ensures last ==> StreamBytes(w.zbits, level, packs)
      ensures old(w.zbits) <= w.zbits && (last ==> |old(w.zbits)| < |w.zbits|)
    {
      hide UnRle, CrcOver, Matches, AllPack, Joined, Header, Packs, StreamBytes, StreamCrc, ByteBits, BitWriter.Valid,
           BitWriter.Contents;
      ghost var z, live, started, more := w.zbits, w.Live(), Opened(), [];
      assert started ==> ByteBits(z) + live == Header(level) + Joined(packs);
      if blockNo == 1 {
        JoinedNone();
        PutHeader(w, level);
      }
      if rl.nblock > 0 {
        more := EmitBlock();
      }
      if last {
        ghost var end := EmitEnd();
        if started {
          BytesKept(z, live, more + end, w.zbits, []);
          BytesMore(z, live, more + end, w.zbits);
        }
      } else if started && rl.nblock > 0 {
        BytesKept(z, live, more, w.zbits, w.Live());
      }
    }

    /** The trailer, and the last byte. */
    method EmitEnd() returns (ghost end: Bits)
      requires 1 <= level <= 9 && AllPack(packs) && combinedCRC == StreamCrc(packs)
      requires w.Valid() && w.Contents() == Header(level) + Joined(packs)
      modifies w
      ensures StreamBytes(w.zbits, level, packs) && |end| >= 25 && ByteBits(w.zbits) == Header(level) + Joined(packs) + end
    {
      hide AllPack, Joined, Header, Trailer, Packs, StreamCrc, BitWriter.Valid, BitWriter.Contents, ByteBits, Zeros;
      PutTrailer(w, combinedCRC);
      ghost var c := w.Contents();
      w.Finish();
      ghost var pad: nat :| PaddedTo(w.zbits, c, pad);
      assert PaddedTo(w.zbits, Stream(level, packs), pad);
      end := Trailer(combinedCRC) + Zeros(pad);
      assert ByteBits(w.zbits) == Header(level) + Joined(packs) + end;
    }

    /** The block itself. */
    method EmitBlock() returns (ghost more: Bits)
      requires rl.Valid() && 0 < rl.nblock <= rl.block.Length == 100000 * level && level <= 9 && WordSized(rl.update)
      requires AllPack(packs) && Matches(packs, blocks) && combinedCRC == StreamCrc(packs) && w.Valid()
      modifies this`blocks, this`combinedCRC, this`packs, w
      ensures blocks == old(blocks) + [Block(rl.block[..rl.nblock], rl.blockCRC)]
      ensures AllPack(packs) && Matches(packs, blocks) && combinedCRC == StreamCrc(packs)
      ensures w.Valid() && w.Contents() == old(w.Contents()) + more && |more| >= 25
      ensures Joined(packs) == Joined(old(packs)) + more
    {
      hide UnRle, CrcOver, Matches, AllPack, Joined, Packs, BitWriter.Valid, BitWriter.Contents;
      CrcSized(rl.update, Text(rl.runs));
      var crc := Final(rl.blockCRC);
      ghost var p := PackBlock(w, rl.block, rl.inUse, rl.nblock, crc, workFactor);
      PackPush(packs, p);
      MatchPush(packs, blocks, p, Block(rl.block[..rl.nblock], rl.blockCRC));
      combinedCRC := Combined(combinedCRC, crc);
      packs := packs + [p];
      blocks := blocks + [Block(rl.block[..rl.nblock], rl.blockCRC)];
      more := p.bits;
    }

    lemma {:induction false} JoinedNone()
      ensures Joined([]) == []
    {
    }

    /** The block takes everything but the pending run. */
    lemma PassedOn()
      requires rl.Valid() && rl.nblock < rl.block.Length && Sound(blocks, rl.update, rl.block.Length)
      requires Plain(blocks).Some? && taken == Plain(blocks).value + rl.Contents()
      ensures var blocks' := if rl.nblock > 0 then blocks + [Block(rl.block[..rl.nblock], rl.blockCRC)] else blocks;
              Plain(blocks').Some? && taken == Plain(blocks').value + Pending() && Sound(blocks', rl.update, rl.block.Length)
    {
      hide UnRle, Encoder.Holds, Encoder.Valid, CrcOver, Text, Plain, Sound;
      rl.Decodes();
      var t := Text(rl.runs);
      if rl.nblock > 0 {
        PlainPush(blocks, Block(rl.block[..rl.nblock], rl.blockCRC));
        SoundPush(blocks, Block(rl.block[..rl.nblock], rl.blockCRC), rl.update, rl.block.Length);
        assert Plain(blocks).value + (t + Pending()) == (Plain(blocks).value + t) + Pending();
      } else {
        assert rl.block[..0] == [];
        UnRleNone();
        assert t == [];
        assert t + Pending() == Pending();
      }
    }

    lemma {:induction false} UnRleNone()
      ensures UnRle([]) == Some([])
    {
    }

    /** The end of the announced input: the pending run goes into the block, and the block out. */
    method FlushBlock()
      requires Valid() && phase == Input && (mode == Flushing || mode == Finishing) && availInExpect == 0 && rl.nblock <= nblockMAX + 4
      modifies this`blocks, this`trailers, this`numZ, this`stateOutPos, this`phase, this`combinedCRC, this`packs,
               rl, rl.block, rl.inUse, w
      ensures Valid() && phase == Output && rl.IsEmpty() && (mode == Finishing ==> stateOutPos < numZ)
      ensures Grown(old(blocks), blocks, nblockMAX, true)
    {
      hide UnRle, Plain, Sound, Encoder.Holds, CrcOver, Coded, WordSized, Opened;
      rl.FlushRL();
      CompressBlock(mode == Finishing);
    }

    /** A full block; the pending run stays for the next one. */
    method CompressFull()
      requires Valid() && phase == Input && mode != Idle && rl.nblock >= nblockMAX && (mode != Running ==> availInExpect > 0)
      modifies this`blocks, this`trailers, this`numZ, this`stateOutPos, this`phase, this`combinedCRC, this`packs, w
      ensures Valid() && phase == Output && !rl.IsEmpty()
      ensures Grown(old(blocks), blocks, nblockMAX, false)
    {
      hide UnRle, Plain, Sound, Encoder.Valid, Encoder.Contents, Coded, WordSized;
      CompressBlock(false);
    }

    /** Some of the output goes to the caller. */
    method CopyOut() returns (progress: bool)
      requires Valid() && phase == Output
      modifies this`stateOutPos, this`availOut, this`output
      ensures Valid() && stateOutPos <= numZ && (stateOutPos == numZ || availOut == 0)
      ensures old(output) <= output && |output| + availOut == |old(output)| + old(availOut)
      ensures stateOutPos - old(stateOutPos) == old(availOut) - availOut >= 0
      ensures progress <==> availOut < old(availOut)
      ensures progress <==> old(availOut) > 0 && old(stateOutPos) < numZ
    {
      hide UnRle, Plain, Sound, Encoder.Valid, Encoder.Contents, Coded, WordSized;
      progress := CopyOutput();
    }

    /** What the control flow relies on. */
    lemma Facts()
      requires Valid()
      ensures stateOutPos <= numZ && 1 <= nblockMAX && rl.nblock <= nblockMAX + (if phase == Input then 4 else 9)
      ensures phase == Input ==> numZ == 0 && (rl.IsEmpty() ==> rl.nblock == 0)
      ensures phase == Output && rl.IsEmpty() ==> mode != Running && availInExpect == 0
      ensures mode == Idle ==> phase == Output && rl.IsEmpty() && stateOutPos == numZ
      ensures trailers <= 1
    {
      hide UnRle, Plain, Sound, Encoder.Valid, Encoder.Contents, Coded, WordSized;
    }

    /** The input half of the loop: `more` says that a block has been encoded. */
    method TakeInput() returns (progress: bool, more: bool)
      requires Valid() && phase == Input && mode != Idle && (mode != Running ==> availInExpect == |input|)
      modifies this`input, this`availInExpect, this`taken, this`blocks, this`trailers, this`numZ, this`stateOutPos,
               this`phase, this`combinedCRC, this`packs, rl, rl.block, rl.inUse, w
      ensures Valid() && (mode != Running ==> availInExpect == |input|) && taken + input == old(taken + input)
      ensures |input| < |old(input)| || (|input| == |old(input)| && (old(rl.IsEmpty()) ==> rl.IsEmpty()))
      ensures more && |input| == |old(input)| ==> (rl.IsEmpty() && input == [] && mode != Running) || old(rl.nblock) >= nblockMAX
      ensures if more then phase == Output else phase == Input && input == [] && rl.nblock < nblockMAX && (mode != Running ==> availInExpect > 0)
      ensures progress <==> |input| < |old(input)|
      ensures progress <==> old(CanTake())
      ensures more && mode == Finishing && input == [] ==> stateOutPos < numZ
      ensures if more then Grown(old(blocks), blocks, nblockMAX, rl.IsEmpty()) else blocks == old(blocks)
    {
      hide Valid, Grown;
      Facts();
      progress := CopyInput();
      Facts();
      more := true;
      if mode != Running && availInExpect == 0 {
        FlushBlock();
      } else if rl.nblock >= nblockMAX {
        CompressFull();
      } else {
        more := false;
      }
    }

    /** The output half of the loop: `go` says that there may be more input. */
    method GiveOutput() returns (progress: bool, go: bool)
      requires Valid() && phase == Output && mode != Idle && (mode != Running ==> availInExpect == |input|)
      modifies this`numZ, this`stateOutPos, this`availOut, this`phase, this`output, this`zbase, this`blockNo, rl, rl.inUse
      ensures Valid() && rl.IsEmpty() == old(rl.IsEmpty())
      ensures old(output) <= output && |output| + availOut == |old(output)| + old(availOut)
      ensures progress <==> availOut < old(availOut)
      ensures progress <==> old(availOut) > 0 && old(stateOutPos) < old(numZ)
      ensures phase == Output ==> stateOutPos - old(stateOutPos) == old(availOut) - availOut && numZ == old(numZ)
      ensures phase == Output ==> !go && if stateOutPos < numZ then availOut == 0 else mode == Finishing && input == [] && rl.IsEmpty()
      ensures phase == Input ==> Waiting() && rl.nblock == 0 && (old(stateOutPos) < old(numZ) ==> progress)
      ensures phase == Input ==> if go then !rl.IsEmpty() else mode == Flushing && input == [] && rl.IsEmpty()
    {
      hide Valid;
      Facts();
      progress := CopyOut();
      go := false;
      if stateOutPos < numZ { return; }
      if mode == Finishing && availInExpect == 0 && rl.IsEmpty() { return; }
      PrepareNewBlock();
      if mode == Flushing && availInExpect == 0 && rl.IsEmpty() { return; }
      go := true;
    }

    /** handle_compress */
    method HandleCompress() returns (progress: bool)
      requires Ready() && mode != Idle && (mode != Running ==> availInExpect == |input|)
      modifies this`input, this`availInExpect, this`taken, this`blocks, this`trailers, this`numZ, this`stateOutPos,
               this`availOut, this`phase, this`output, this`zbase, this`blockNo, this`combinedCRC, this`packs,
               rl, rl.block, rl.inUse, w
      ensures Valid() && (mode != Running ==> availInExpect == |input|)
      ensures taken + input == old(taken + input) && |input| <= |old(input)|
      ensures old(output) <= output && |output| + availOut == |old(output)| + old(availOut)
      ensures phase == Output ==> stateOutPos < numZ || (mode == Finishing && input == [] && rl.IsEmpty() && progress)
      ensures phase == Output && stateOutPos < numZ ==> availOut == 0
      ensures phase == Input ==> Waiting() && mode != Finishing && input == [] && (mode == Flushing ==> rl.IsEmpty())
      ensures progress <==> |input| < |old(input)| || availOut < old(availOut)
      ensures mode != Flushing ==> (progress <==> old(CanMove()))
      ensures progress && phase == Output ==> Shorter(Ahead(), old(Ahead()))
      ensures Grown(old(blocks), blocks, nblockMAX, mode != Running)
    {
      hide Valid, Grown, Encoder.IsEmpty;
      NotGrown(blocks, nblockMAX, false);
      NotGrown(blocks, nblockMAX, true);
      var progressIn, progressOut := false, false;
      ghost var first := true;
      while true
        invariant Valid() && (mode != Running ==> availInExpect == |input|)
        invariant taken + input == old(taken + input) && |input| <= |old(input)|
        invariant old(output) <= output && |output| + availOut == |old(output)| + old(availOut) && availOut <= old(availOut)
        invariant progressIn <==> |input| < |old(input)|
        invariant progressOut <==> availOut < old(availOut)
        invariant first ==> Waiting() && phase == old(phase) && Ahead() == old(Ahead()) && availOut == old(availOut)
        invariant first ==> blocks == old(blocks)
        invariant Grown(old(blocks), blocks, nblockMAX, true) && (first || !rl.IsEmpty() ==> Grown(old(blocks), blocks, nblockMAX, false))
        invariant !first ==> phase == Output
        invariant !first && |input| == |old(input)| ==> old(rl.IsEmpty()) ==> rl.IsEmpty() && old(phase) == Input
        invariant !first && |input| == |old(input)| && !rl.IsEmpty() ==> old(phase) == Input && old(rl.nblock) >= nblockMAX
        invariant !first && mode != Flushing ==>
          progressIn || progressOut || (mode == Finishing && old(phase) == Input && old(input) == [] && stateOutPos < numZ)
        invariant !first && old(phase) == Output ==> progressOut
        invariant !first && mode == Running && old(phase) == Input ==> old(input) != []
        decreases |input|, if rl.IsEmpty() then 0 else 1, if phase == Input then 1 else 0
      {
        Facts();
        if phase == Output {
          var p, go := GiveOutput();
          progressOut := progressOut || p;
          if !go { break; }
        }
        ghost var b := blocks;
        var p, more := TakeInput();
        progressIn := progressIn || p;
        if !more { break; }
        GrownOn(old(blocks), b, blocks, nblockMAX, rl.IsEmpty());
        first := false;
      }
      progress := progressIn || progressOut;
    }

    /** Whether a call with BZ_RUN or BZ_FINISH finds anything to do. */
    predicate CanMove()
      reads this`phase, this`mode, this`input, this`availOut
    {
      (phase == Input && input != []) || (availOut > 0 && (phase == Output || mode == Finishing))
    }

    /** What a finished stream looks like: all of the input is in the blocks, and what the caller has got is exactly a
        stream of these blocks, with one trailer. */
    ghost predicate Complete()
      reads this, rl, rl.block, rl.inUse, w
    {
      && mode == Idle && trailers == 1 && 1 <= level <= 9 && rl.block.Length == 100000 * level
      && Plain(blocks) == Some(taken) && Sound(blocks, rl.update, rl.block.Length)
      && AllPack(packs) && Matches(packs, blocks) && StreamBytes(output, level, packs)
    }

    /** The stream has come to its end. */
    method Close()
      requires Valid() && phase == Output && rl.IsEmpty() && mode == Finishing && stateOutPos == numZ
      modifies `mode
      ensures Ready() && mode == Idle && Complete()
    {
      hide UnRle, Plain, Sound, Encoder.Holds, AllPack, Matches, StreamBytes, BitWriter.Valid, BitWriter.Contents, WordSized;
      assert Plain(blocks).value + [] == Plain(blocks).value;
      assert output == w.zbits;
      mode := Idle;
    }

    /** The caller has given notice of how much input is left. */
    method Announce(next: Mode)
      requires Ready() && mode == Running && (next == Flushing || next == Finishing)
      modifies `mode, `availInExpect
      ensures Ready() && mode == next && availInExpect == |input|
    {
      hide UnRle, Plain, Sound, Encoder.Valid, Encoder.Contents, Coded, WordSized;
      availInExpect := |input|;
      mode := next;
    }

    /** The caller's buffers. */
    method Offer(s: seq<byte>, space: nat)
      requires Ready()
      modifies `input, `availOut
      ensures Ready() && input == s && availOut == space
    {
      hide UnRle, Plain, Sound, Encoder.Valid, Encoder.Contents, Coded, WordSized;
      input, availOut := s, space;
    }

    /** Whether a call keeps to the sequence: once flushing or finishing has begun, only the same action with all of the
        input announced will do. */
    predicate InSequence(action: Action, s: seq<byte>)
      reads this`mode, this`availInExpect
    {
      match mode
      case Idle => false
      case Running => true
      case Flushing => action == Flush && availInExpect == |s|
      case Finishing => action == Finish && availInExpect == |s|
    }

    /** BZ2_bzCompress, with `s` as the input and `space` as the output space the caller offers. */
    method BzCompress(action: Action, s: seq<byte>, space: nat) returns (answer: Answer)
      requires Ready()
      modifies this, rl, rl.block, rl.inUse, w
      ensures Ready() && trailers <= 1 && stateOutPos <= numZ
      ensures taken + input == old(taken) + s
      ensures old(output) <= output && |output| <= |old(output)| + space
      // the answers
      ensures answer == SequenceError <==> !old(InSequence(action, s)) || (action == Finish && !Moved(s, input, old(output), output))
      ensures answer == ParamError <==> old(mode) == Running && action == Run_ && !Moved(s, input, old(output), output)
      ensures answer == StreamEnd <==> old(mode) != Idle && mode == Idle
      ensures answer == FinishOk || answer == FlushOk ==> |output| == |old(output)| + space && phase == Output
      ensures answer == FlushOk ==> action == Flush && mode == Flushing && availInExpect == |input|
      ensures answer == FinishOk ==> action == Finish && mode == Finishing && availInExpect == |input|
      ensures answer == RunOk ==> action != Finish && mode == Running
      ensures answer == RunOk ==> if phase == Input then input == [] else action == Run_ && |output| == |old(output)| + space
      ensures answer == RunOk && action == Flush ==> Plain(blocks) == Some(taken) && output == w.zbits
      ensures answer == StreamEnd ==> action == Finish && Complete() && input == []
      ensures Grown(old(blocks), blocks, nblockMAX, action != Run_)
      // what decides them
      ensures old(InSequence(action, s)) && action != Flush ==>
        (Moved(s, input, old(output), output) <==>
         (old(phase) == Input && s != []) || (space > 0 && (old(phase) == Output || action == Finish)))
      ensures Moved(s, input, old(output), output) && phase == Output ==> Shorter(Ahead(), old(Ahead()).(input := |s|))
      ensures !old(InSequence(action, s)) ==>
        blocks == old(blocks) && taken == old(taken) && output == old(output) && mode == old(mode)
    {
      hide Valid, Waiting, Complete, Shorter, Grown;
      NotGrown(blocks, nblockMAX, action != Run_);
      Offer(s, space);
      Facts();
      if mode == Idle { return SequenceError; }
      if mode == Running {
        match action {
          case Run_ =>
            answer := RunCall();
            return;
          case Flush =>
            Announce(Flushing);
          case Finish =>
            Announce(Finishing);
        }
      }
      if mode == Flushing {
        answer := FlushCall(action);
      } else {
        answer := FinishCall(action);
      }
    }
    /** A call in BZ_M_RUNNING with BZ_RUN. */
    method RunCall() returns (answer: Answer)
      requires Ready() && mode == Running
      modifies this, rl, rl.block, rl.inUse, w
      ensures Ready() && trailers <= 1 && stateOutPos <= numZ && mode == Running && taken + input == old(taken + input)
      ensures old(output) <= output && |output| + availOut == |old(output)| + old(availOut)
      ensures answer == if Moved(old(input), input, old(output), output) then RunOk else ParamError
      ensures Moved(old(input), input, old(output), output) <==> old(CanMove())
      ensures if phase == Input then input == [] else availOut == 0
      ensures Grown(old(blocks), blocks, nblockMAX, false)
      ensures Moved(old(input), input, old(output), output) && phase == Output ==> Shorter(Ahead(), old(Ahead()))
    {
      hide Valid, Ahead, Shorter, Grown;
      var progress := HandleCompress();
      Facts();
      answer := if progress then RunOk else ParamError;
    }

    /** A call in BZ_M_FLUSHING. */
    method FlushCall(action: Action) returns (answer: Answer)
      requires Ready() && mode == Flushing
      modifies this, rl, rl.block, rl.inUse, w
      ensures Ready() && trailers <= 1 && stateOutPos <= numZ && taken + input == old(taken + input)
      ensures old(output) <= output && |output| + availOut == |old(output)| + old(availOut)
      ensures answer == SequenceError || answer == FlushOk || answer == RunOk
      ensures answer == SequenceError <==> !old(InSequence(action, input))
      ensures answer == SequenceError ==> blocks == old(blocks) && taken == old(taken) && output == old(output) && mode == Flushing
      ensures answer == FlushOk ==> mode == Flushing && phase == Output && availOut == 0 && availInExpect == |input|
      ensures Grown(old(blocks), blocks, nblockMAX, true)
      ensures answer == RunOk ==> mode == Running && phase == Input && input == [] && Plain(blocks) == Some(taken) && output == w.zbits
      ensures answer != SequenceError && Moved(old(input), input, old(output), output) && phase == Output ==>
        Shorter(Ahead(), old(Ahead()))
    {
      hide Valid, Ahead, Shorter, Grown;
      NotGrown(blocks, nblockMAX, true);
      Facts();
      if action != Flush || availInExpect != |input| { return SequenceError; }
      var progress := HandleCompress();
      Facts();
      if availInExpect > 0 || !rl.IsEmpty() || stateOutPos < numZ { return FlushOk; }
      Resume();
      answer := RunOk;
    }

    /** All that was to be flushed has been. */
    method Resume()
      requires Ready() && mode == Flushing && phase == Input && rl.IsEmpty()
      modifies `mode
      ensures Ready() && mode == Running && Ahead() == old(Ahead())
      ensures Plain(blocks) == Some(taken) && output == w.zbits
    {
      hide UnRle, Plain, Sound, Written, BitWriter.Valid, BitWriter.Contents, WordSized;
      UnRleNone();
      rl.Decodes();
      assert rl.block[..rl.nblock] == [] && rl.Contents() == [];
      assert Plain(blocks).value + [] == Plain(blocks).value;
      mode := Running;
    }

    /** A call in BZ_M_FINISHING. */
    method FinishCall(action: Action) returns (answer: Answer)
      requires Ready() && mode == Finishing
      modifies this, rl, rl.block, rl.inUse, w
      ensures Ready() && trailers <= 1 && stateOutPos <= numZ && taken + input == old(taken + input)
      ensures old(output) <= output && |output| + availOut == |old(output)| + old(availOut)
      ensures answer == SequenceError || answer == FinishOk || answer == StreamEnd
      ensures answer == SequenceError <==> !old(InSequence(action, input)) || !Moved(old(input), input, old(output), output)
      ensures !old(InSequence(action, input)) ==> blocks == old(blocks) && taken == old(taken) && output == old(output) && mode == Finishing
      ensures old(InSequence(action, input)) ==> (Moved(old(input), input, old(output), output) <==> old(CanMove()))
      ensures answer == FinishOk ==> phase == Output && availOut == 0 && availInExpect == |input|
      ensures Grown(old(blocks), blocks, nblockMAX, true)
      ensures if answer == StreamEnd then mode == Idle && Complete() && input == [] else mode == Finishing
      ensures old(InSequence(action, input)) && Moved(old(input), input, old(output), output) && phase == Output ==>
        Shorter(Ahead(), old(Ahead()))
    {
      hide Valid, Ahead, Shorter, Complete, Grown;
      NotGrown(blocks, nblockMAX, true);
      Facts();
      if action != Finish || availInExpect != |input| { return SequenceError; }
      var progress := HandleCompress();
      Facts();
      if !progress { return SequenceError; }
      if availInExpect > 0 || !rl.IsEmpty() || stateOutPos < numZ { return FinishOk; }
      Close();
      answer := StreamEnd;
    }
  }
}
