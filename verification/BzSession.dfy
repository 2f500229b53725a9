/** Whole runs of BZ2_bzCompress, and back. */
module BzSession {
  import opened BlockDecoder
  import opened BzCompress
  import opened BzDecompress
  import opened BzStream
  import opened Counting
  import opened Options

  /** What an application does before it finishes: it feeds in a text, or flushes after one. */
  datatype Part = Feed(text: seq<byte>) | FlushAfter(text: seq<byte>)

  function Texts(parts: seq<Part>): seq<byte> {
    if parts == [] then [] else Texts(parts[..|parts| - 1]) + parts[|parts| - 1].text
  }

  function Least(a: nat, b: nat): nat { if a < b then a else b }

  /** BZ_RUN until the text is taken, offering up to `piece(i)` bytes and `space(i)` bytes of room in call `i`. */
  method FeedText(c: Compressor, text: seq<byte>, piece: nat -> nat, space: nat -> nat)
    requires c.Ready() && c.mode == Running && forall i :: piece(i) >= 1 && space(i) >= 1
    modifies c, c.rl, c.rl.block, c.rl.inUse, c.w
    ensures c.Ready() && c.mode == Running && c.taken == old(c.taken) + text
  {
    hide Compressor.Ready, Compressor.Valid, Compressor.Complete;
    var rest, calls: nat := text, 0;
    while rest != []
      invariant c.Ready() && c.mode == Running && c.taken + rest == old(c.taken) + text
      decreases |rest|, if c.rl.IsEmpty() then 0 else 1, if c.phase == Input then 1 else 0, c.numZ - c.stateOutPos
    {
      var n := Least(piece(calls), |rest|);
      ghost var t := c.taken;
      var answer := c.BzCompress(Run_, rest[..n], space(calls));
      assert t + rest == t + rest[..n] + rest[n..];
      assert c.taken + c.input + rest[n..] == c.taken + (c.input + rest[n..]);
      rest := c.input + rest[n..];
      calls := calls + 1;
    }
  }

  /** BZ_FLUSH until the answer is BZ_RUN_OK. */
  method FlushText(c: Compressor, text: seq<byte>, space: nat -> nat)
    requires c.Ready() && c.mode == Running && forall i :: space(i) >= 1
    modifies c, c.rl, c.rl.block, c.rl.inUse, c.w
    ensures c.Ready() && c.mode == Running && c.taken == old(c.taken) + text
    ensures Plain(c.blocks) == Some(c.taken) && c.output == c.w.zbits
  {
    hide Compressor.Ready, Compressor.Valid, Compressor.Complete;
    var answer := c.BzCompress(Flush, text, space(0));
    var calls: nat := 1;
    while answer != RunOk
      invariant c.Ready() && c.taken + c.input == old(c.taken) + text
      invariant answer == FlushOk || answer == RunOk
      invariant answer == FlushOk ==> c.mode == Flushing && c.availInExpect == |c.input| && c.phase == Output
      invariant answer == RunOk ==> c.mode == Running && c.input == [] && Plain(c.blocks) == Some(c.taken) && c.output == c.w.zbits
      decreases answer != RunOk, |c.input|, if c.rl.IsEmpty() then 0 else 1, if c.phase == Input then 1 else 0, c.numZ - c.stateOutPos
    {
      answer := c.BzCompress(Flush, c.input, space(calls));
      calls := calls + 1;
    }
  }

  /** BZ_FINISH until the answer is BZ_STREAM_END. */
  method FinishText(c: Compressor, text: seq<byte>, space: nat -> nat)
    requires c.Ready() && c.mode == Running && forall i :: space(i) >= 1
    modifies c, c.rl, c.rl.block, c.rl.inUse, c.w
    ensures c.Ready() && c.Complete() && c.taken == old(c.taken) + text
  {
    hide Compressor.Ready, Compressor.Valid, Compressor.Complete;
    var answer := c.BzCompress(Finish, text, space(0));
    var calls: nat := 1;
    while answer != StreamEnd
      invariant c.Ready() && c.taken + c.input == old(c.taken) + text
      invariant answer == FinishOk || answer == StreamEnd
      invariant answer == FinishOk ==> c.mode == Finishing && c.availInExpect == |c.input| && c.phase == Output
      invariant answer == StreamEnd ==> c.Complete() && c.input == []
      decreases answer != StreamEnd, |c.input|, if c.rl.IsEmpty() then 0 else 1, if c.phase == Input then 1 else 0, c.numZ - c.stateOutPos
    {
      answer := c.BzCompress(Finish, c.input, space(calls));
      calls := calls + 1;
    }
  }

  /** Any texts fed in or flushed, then finished: BZ2_bzCompress comes to the end of the stream. */
  method CompressAll(c: Compressor, parts: seq<Part>, last: seq<byte>, piece: (nat, nat) -> nat, space: (nat, nat) -> nat)
    requires c.Ready() && c.mode == Running && forall k, i :: piece(k, i) >= 1 && space(k, i) >= 1
    modifies c, c.rl, c.rl.block, c.rl.inUse, c.w
    ensures c.Ready() && c.Complete() && c.taken == old(c.taken) + Texts(parts) + last
  {
    hide Compressor.Ready, Compressor.Valid, Compressor.Complete;
    ghost var t := c.taken;
    assert parts[..0] == [] && t + [] == t;
    for k := 0 to |parts|
      invariant c.Ready() && c.mode == Running && c.taken == t + Texts(parts[..k])
    {
      match parts[k] {
        case Feed(text) => FeedText(c, text, i => piece(k, i), i => space(k, i));
        case FlushAfter(text) => FlushText(c, text, i => space(k, i));
      }
      assert parts[..k + 1][..k] == parts[..k];
      assert t + Texts(parts[..k]) + parts[k].text == t + (Texts(parts[..k]) + parts[k].text);
    }
    assert parts[..|parts|] == parts;
    FinishText(c, last, i => space(|parts|, i));
  }

  /** There and back: whatever is fed in, flushed and finished, in whatever pieces and with whatever room, at any level,
      the stream that comes out is decoded to it. */
  method CompressAndRestore(blockSize100k: nat, workFactor: int, update: (nat, byte) -> nat, parts: seq<Part>, last: seq<byte>,
                            piece: (nat, nat) -> nat, space: (nat, nat) -> nat, mask: nat -> bool, room: (nat, nat) -> nat)
    returns (r: Result<()>, output: seq<byte>)
    requires 1 <= blockSize100k <= 9 && WordSized(update)
    requires forall k, i :: piece(k, i) >= 1 && space(k, i) >= 1 && room(k, i) >= 1
    ensures r == Got(()) && output == Texts(parts) + last
  {
    hide Compressor.Valid, Compressor.Complete, WordSized;
    var c := new Compressor(blockSize100k, workFactor, update);
    CompressAll(c, parts, last, piece, space);
    assert [] + Texts(parts) + last == Texts(parts) + last;
    r, output := RoundTrip(c, mask, room);
  }
}
