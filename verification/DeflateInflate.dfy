/** What a compressor of deps/zlib emits, a decoder of deps/zlib restores. */
module DeflateInflate {
  import opened Counting
  import opened Deflate
  import opened HashChains
  import opened InflateBack

  /** The whole round trip, by either compressor, whatever the level, however the input is cut into chunks, and
      whichever of the decoder's two paths reads each symbol. */
  method CompressAndRestore(c: Config, tuning: Tuning, symEnd: nat, fast: bool, chunks: seq<seq<byte>>, last: seq<byte>,
                            path: nat -> Step, sane: bool)
    returns (output: seq<byte>)
    requires ProperConfig(c)
    ensures output == Concat(chunks) + last
  {
    var tokens;
    if fast {
      tokens := RunFast(c, tuning, symEnd, chunks, last);
    } else {
      tokens := RunSlow(c, tuning, symEnd, chunks, last);
    }
    output := Restore(tokens, seq(|tokens|, path), c.wsize, sane, Concat(chunks) + last);
  }
}
