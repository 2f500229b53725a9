# Verified models of the compression and generator libraries

The repository carries three C libraries under `deps/`: the bzip2 block compressor, parts of zlib, and the SFMT
random number generator. This project models their algorithms in Dafny, in the imperative form the sources have, and
proves what the libraries are for.

**bzip2.** From input bytes to bits and back. The initial run-length coding and the state machine of `BZ2_bzCompress`
(`RunLength`, `BzCompress`); the sorting of a block's rotations, by exponential radix refinement (`FallbackSort`,
`FallbackQSort`, with the header bit table in `BitTable` and the byte view of the words in `WordMemory`) and by the main
sorter: the comparison with its quadrant cache (`QuadrantCache`), Shell sort and three-way quicksort on strings
(`MainQSort`), two-byte buckets (`SmallBuckets`), the scan that sorts buckets without comparing anything
(`PointerScan`), and the loop over the big buckets (`MainSort`), with the choice between the two in `BlockSort`; the
Burrows-Wheeler transform with both of its inverses (`Bwt`); move-to-front coding with zero runs (`MoveToFront`) and
the decoder's two-level array for it (`TwoLevelMtf`); Huffman code lengths and canonical codes (`HuffmanHeap`,
`HuffmanLengths`, `HuffmanCodes`); bit buffers (`BitStream`); and the block format, with a writer, a reader and a
printer and parser that both refer to (`BlockFormat`, `BlockEncoder`, `BlockDecoder`). `BlockCodec` puts the stages
of a block together: whatever choices the encoder makes, decoding gives the block back. `BzStream` adds the stream
header, the trailer and the combined CRC, and `BzDecompress` closes the circle: the bytes that any sequence of
`BZ2_bzCompress` calls has handed out by the time it answers `BZ_STREAM_END` decode to the bytes it was given, and a
stream whose checksums are not those of its texts is refused. `BzSession` shows that the end is always reached: whatever
is fed in, flushed and finished, in whatever pieces and with whatever space, comes back.

**zlib.** The dictionary of `deflate` as an invariant that survives inserting, sliding and refilling, with chains that
forget nothing, so that searching them finds the longest match in reach (`RollingHash`, `HashChains`), the lazy and the
fast compressor over whole runs (`Deflate`), the meaning of tokens (`Lz77`), the copies of `inflateBack` and
`inflate_fast` (`InflateCopy`, `InflateBack`), and the composition of both ends (`DeflateInflate`). CRC-32 as arithmetic
with polynomials (`CrcPoly`, `CrcPowers`), with tables, braids and combination (`Crc32`), and what it promises of
messages (`CrcLaws`); Adler-32 (`Adler32`).

**SFMT.** The in-place recurrence, bulk filling and single words as one sequence (`Sfmt`).

`Rotations`, `Permutations`, `Counting`, `Powers` and `Options` hold what several modules share.

How the models are set up:

- Sizes are parameters where the proofs allow it: block length, window size, hash size, number of braids, word size,
  N and POS1 of the generator.
- Rotations of a block are compared as cyclic strings; equal rotations may stand in any order, as they may in the
  sources.
- Absolute positions in the input, the bytes decoded so far, and the blocks finished so far are ghost state. Whether a
  caller of `deflate` accepts output (`avail_out`) is an arbitrary choice.
- 32-bit words of the CRC and of SFMT are bit-vectors. Elsewhere words are integers; where a source relies on a width
  (the bit buffers, packed costs, packed weights, Adler sums, half-words over words) the bound is proved.
- The compressed bytes of bzip2 depend on how calls are cut when a block becomes exactly full
  (`deps/bzip2/bzlib.c:384-392`), so only that decoding gives the input back is claimed, never that the bits are equal.
- The comment on `fallbackQSort3`'s random numbers promises nothing; the proof does not depend on them.
- `inflateBack` decodes some symbols itself and some by `inflate_fast`, which writes into the window it reads from. Which
  is which depends on the input at hand and is an arbitrary choice. The two paths test distances differently: on the
  fast one, a distance beyond what has been written can pass (`InflateBack.AcceptedWithoutSense` has an input), and
  `InflateBack.AcceptedExactly` says exactly when. Symbols that make sense pass on both, and the round trip needs
  distances of at most `w_size - 262` only. Nothing sets `state->sane` for `inflateBack`, so it is arbitrary too; where
  it is false and a distance reaches outside the memory of the window, the outcome is `OutsideMemory` and nothing is
  copied.
- The comment at `deps/bzip2/blocksort.c:964-985` says that unequal quadrant values mean strictly ordered rotations.
  Equal rotations of a periodic block get unequal values as well; what holds, and is proved, is that the order is never
  contradicted.

## Model

| member | source | states |
|---|---|---|
| `BitTable.SetBh` | deps/bzip2/blocksort.c:205 | setting a header bit sets that bit and no other, across all words of the table |
| `BitTable.ClearBh` | deps/bzip2/blocksort.c:206 | clearing a header bit clears that bit and no other |
| `BitTable.SkipBits` | deps/bzip2/blocksort.c:277-290 | the word-at-a-time scan stops at the first bit that differs, never passing a bit known to differ |
| `FallbackQSort.FallbackSimpleSort` | deps/bzip2/blocksort.c:32-59 | the gap-4 pass and the gap-1 pass leave the stretch ordered by class and only rearranged; no entry outside it moves |
| `FallbackQSort.GapInsert` | deps/bzip2/blocksort.c:43-58 | one insertion only rearranges; with gap 1 it extends the ordered stretch by one |
| `FallbackQSort.VSwap` | deps/bzip2/blocksort.c:66-75 | two disjoint stretches are exchanged, everything else stays |
| `FallbackQSort.ScanUp` | deps/bzip2/blocksort.c:136-146 | scanning up keeps the split into equal, smaller, unseen, greater and equal entries, and stops at a greater entry |
| `FallbackQSort.ScanDown` | deps/bzip2/blocksort.c:147-157 | scanning down keeps the same split, and stops at a smaller entry |
| `FallbackQSort.PartedByVSwaps` | deps/bzip2/blocksort.c:164-170 | the two block exchanges turn equal-smaller-greater-equal into smaller, equal, greater |
| `FallbackQSort.Partition` | deps/bzip2/blocksort.c:126-170 | three-way partitioning round a class that occurs: smaller, then at least one equal, then greater, unless all are equal |
| `FallbackQSort.PopParted` | deps/bzip2/blocksort.c:172-178 | replacing a stretch by its two unfinished parts keeps the invariant that every pair out of order lies inside one stacked stretch |
| `FallbackQSort.StackDepth` | deps/bzip2/blocksort.c:111 | entry s of the stack has at most total / 2^s elements, so the stack stays logarithmic and assertion 1004 cannot fire |
| `FallbackQSort.FallbackQSort3` | deps/bzip2/blocksort.c:93-180 | for every stretch: afterwards ordered by class, and only rearranged; ends for all inputs |
| `FallbackSort.RadixSort` | deps/bzip2/blocksort.c:236-241 | the counting sort puts every rotation in the bucket of its first byte, each rotation once |
| `FallbackSort.InitTable` | deps/bzip2/blocksort.c:243-257 | header bits stand exactly at the bucket starts, sentinel bits alternate after the block |
| `FallbackSort.HeadOrder` | deps/bzip2/blocksort.c:266-271 | comparing bucket headers of sorted positions is comparing rotations to the current depth |
| `FallbackSort.AssignClasses` | deps/bzip2/blocksort.c:266-271 | after the loop, classes order any two rotations by what follows their first H bytes |
| `FallbackSort.NextBucket` | deps/bzip2/blocksort.c:277-292 | the next bucket of at least two rotations is found exactly, and none is overlooked |
| `FallbackSort.MarkBucket` | deps/bzip2/blocksort.c:299-304 | a header is set inside the bucket exactly where the class changes |
| `FallbackSort.RefineBucket` | deps/bzip2/blocksort.c:294-305 | sorting one bucket by class refines it from depth H to depth 2H, and spoils nothing outside |
| `FallbackSort.Pass` | deps/bzip2/blocksort.c:259-313 | one pass turns buckets sorted to H bytes into buckets sorted to 2H; nothing left to do means sorted outright |
| `FallbackSort.RestoreBlock` | deps/bzip2/blocksort.c:315-328 | the block bytes, overwritten by classes, are written back from the sorted order and the byte counts |
| `FallbackSort.FallbackSort` | deps/bzip2/blocksort.c:212-329 | for every non-empty block: fmap lists all rotations once in non-decreasing order, and the block is as it was |
| `Rotations.CmpSplit` | deps/bzip2/blocksort.c:247-251 | comparing to depth h + g is comparing to depth h and, on a tie, comparing what follows to depth g |
| `Rotations.SortedUnique` | deps/bzip2/blocksort.c:247-251 | two sorted listings of the rotations agree position by position, up to equal rotations |
| `QuadrantCache.MainGtU` | deps/bzip2/blocksort.c:347-469 | for a consistent cache: true only if the first rotation is not smaller, false only if it is not greater; nothing beyond nblock + 33 is read, from starts up to nblock + 14; the budget is untouched unless the two agree in twelve bytes, and every unit taken means eight more bytes in common |
| `QuadrantCache.DeeperIsSame` | deps/bzip2/blocksort.c:347-469 | comparing rotations deeper than the block is long decides as comparing them over the block |
| `QuadrantCache.ComparedAfter` | deps/bzip2/blocksort.c:514-516 | comparing after a common prefix answers for the rotations themselves |
| `QuadrantCache.Prepare` | deps/bzip2/blocksort.c:772-798 | zero values and a copied overshoot are a consistent cache |
| `QuadrantCache.Scale` | deps/bzip2/blocksort.c:994 | the fewest shifts that bring the bucket size to at most 65534 |
| `QuadrantCache.StaysTruthful` | deps/bzip2/blocksort.c:964-985 | recording the places of a sorted bucket, however coarsely scaled, keeps smaller values with rotations that are not greater |
| `QuadrantCache.RecordBucket` | deps/bzip2/blocksort.c:990-1003 | after step 3 the cache is consistent again, overshoot included; values of other buckets stay, none is cut off by 16 bits, and assertion 1002 holds |
| `MainQSort.RankOrder` | deps/bzip2/blocksort.c:347-469 | rotations can be numbered so that comparing numbers is comparing rotations, equal rotations sharing theirs |
| `MainQSort.Insert` | deps/bzip2/blocksort.c:509-521 | one insertion with any gap only rearranges; with gap 1 it extends the ordered stretch by one |
| `MainQSort.MainSimpleSort` | deps/bzip2/blocksort.c:485-558 | the Shell sort leaves rotations that agree in d bytes in order, unless the budget runs out; only rearranged either way; from depth two on the budget is untouched unless two rotations of the block agree in fourteen bytes |
| `MainQSort.SpentOn` | deps/bzip2/blocksort.c:464 | a unit of budget spent at depth two or deeper means two different rotations that agree in their first fourteen bytes |
| `MainQSort.NextByte` | deps/bzip2/blocksort.c:656-681 | of rotations that agree in d bytes, the next byte decides, or they agree in it too; read in block or overshoot |
| `MainQSort.SortStretch` | deps/bzip2/blocksort.c:649-707 | a stretch taken off the stack is in order afterwards, or tied one byte deeper, or split into smaller, tied deeper, and greater |
| `MainQSort.PopSpread` | deps/bzip2/blocksort.c:702-715 | replacing a stretch by its three parts, in any order, keeps the invariant that every pair out of order lies inside one stacked stretch |
| `MainQSort.LongIsLow` | deps/bzip2/blocksort.c:646 | with the largest part pushed first, a stretch that is split again never stands higher than place 21, so assertion 1001 cannot fire |
| `MainQSort.PartsCost` | deps/bzip2/blocksort.c:702-715 | three parts are less work than the stretch they come from, which is why the loop ends |
| `MainQSort.MainQSort3` | deps/bzip2/blocksort.c:621-718 | rotations that agree in d bytes end up in order, unless the budget runs out; only rearranged either way; ends for all inputs; the budget is touched for repetitive blocks only |
| `SmallBuckets.KeyOrder` | deps/bzip2/blocksort.c:800-834 | rotations with a smaller first pair of bytes are smaller |
| `SmallBuckets.ClassSize` | deps/bzip2/blocksort.c:800-834 | distinct rotations with certain keys never outnumber the places of their buckets, and fill them if they are all of them |
| `PointerScan.PredsMember` | deps/bzip2/blocksort.c:926-936 | the rotations one place before a scanned list that start with t are exactly those whose successor is in the list |
| `PointerScan.PredsRising` | deps/bzip2/blocksort.c:926-936 | they inherit the order of the list |
| `PointerScan.FallingFirst` | deps/bzip2/blocksort.c:926-936 | among rotations with the same first byte, those whose first run ends in a smaller byte come before those whose run ends in a greater one |
| `PointerScan.UpScan` | deps/bzip2/blocksort.c:926-930 | one step of the upward scan keeps the state: what is found so far is distinct, in order, and in its place; there is always a place left |
| `PointerScan.DownScan` | deps/bzip2/blocksort.c:931-936 | the same for the downward scan |
| `PointerScan.Found` | deps/bzip2/blocksort.c:926-936 | both scans together come to every rotation of the bucket, in any block with another byte |
| `PointerScan.BucketFull` | deps/bzip2/blocksort.c:937-944 | copyStart and copyEnd meet for every bucket being filled, which then holds its rotations in order |
| `PointerScan.ScanBucket` | deps/bzip2/blocksort.c:920-944 | one scan from each end puts all small buckets t, ss in order, ss, ss included; everything else stays; assertion 1007 holds |
| `MainSort.CountPairs` | deps/bzip2/blocksort.c:769-791 | the table counts every pair of bytes, the last with the first byte included |
| `MainSort.FillBuckets` | deps/bzip2/blocksort.c:803-833 | every rotation once, in the bucket of its first two bytes; the table holds the bucket starts |
| `MainSort.RunningOrder` | deps/bzip2/blocksort.c:836-860 | every big bucket once, in order of size |
| `MainSort.SortRow` | deps/bzip2/blocksort.c:886-907 | step 1 puts every small bucket of the row but the middle one in order, or runs out of budget, which takes a block with two rotations that agree in fourteen bytes; marks are only set on buckets in order |
| `MainSort.SortBig` | deps/bzip2/blocksort.c:868-1004 | one round: its big bucket is done, all marks are right, the cache is consistent, unless the budget runs out; the budget is touched for repetitive blocks only; assertion 1006 holds |
| `MainSort.MainSort` | deps/bzip2/blocksort.c:751-1010 | if no two rotations agree in fourteen bytes the budget comes back untouched and ptr lists all rotations in order; in any block longer than the overshoot, unless the budget runs out, ptr lists all rotations in order; the block itself stays |
| `BlockSort.BlockSort` | deps/bzip2/blocksort.c:1031-1089 | whichever sorter does it, the rotations are all listed in order, the block is left as it was, and origPtr is the place of rotation 0 |
| `WordMemory.PutByte` | deps/bzip2/blocksort.c:223-241 | a byte written over the 32-bit words is read back and leaves all other bytes alone |
| `WordMemory.PutHalf` | deps/bzip2/compress.c:148-153 | a half-word written over the pointers is read back and leaves all other half-words alone |
| `Bwt.FindOrigPtr` | deps/bzip2/blocksort.c:1083-1088 | the row of the block itself is found; assertion 1003 cannot fire |
| `Bwt.RoundTrip` | deps/bzip2/decompress.c:557-576 | for any block and any sorted order of its rotations, ties in any order and periodic blocks included, the walk from the row of the block gives the block back |
| `Bwt.MakeCftab` | deps/bzip2/decompress.c:500-503 | running sums of the byte counts are the bucket starts |
| `Bwt.BuildTt` | deps/bzip2/decompress.c:559-564 | the low bytes stay the column, the upper bits become the inverse of the rank vector T |
| `Bwt.GetFast` | deps/bzip2/bzlib_private.h:444-449 | one step delivers the byte at the current position and moves on by the inverse of T |
| `Bwt.SetLL` | deps/bzip2/bzlib_private.h:458-473 | the 20-bit packed store reads back what was written and keeps the other nibble of the shared byte |
| `Bwt.BuildLL` | deps/bzip2/decompress.c:526-534 | the packed vector becomes the rank vector T |
| `Bwt.Reverse` | deps/bzip2/decompress.c:536-545 | pointer reversal replaces T by its inverse on exactly the cycle through origPtr, however many cycles T has |
| `Bwt.IndexIntoF` | deps/bzip2/bzlib.c:687-698 | binary search finds the byte whose bucket contains the index |
| `Bwt.GetSmall` | deps/bzip2/bzlib_private.h:475-477 | one step of the SMALL walk delivers the byte of the row and stays on the reversed cycle |
| `Bwt.SmallIsFast` | deps/bzip2/decompress.c:524-576 | for any column and any row, the SMALL walk delivers the same bytes as the FAST walk |
| `TwoLevelMtf.TwoLevel.constructor` | deps/bzip2/decompress.c:358-369 | the 16 windows start as the list 0..255, inside the array and apart |
| `TwoLevelMtf.TwoLevel.MoveNear` | deps/bzip2/decompress.c:429-444 | inside the first window: plain move-to-front on the whole 256-entry list |
| `TwoLevelMtf.TwoLevel.MoveFar` | deps/bzip2/decompress.c:446-462 | across windows: entry nn moves to the front, windows stay apart though each hands its last entry on |
| `TwoLevelMtf.TwoLevel.Rebuild` | deps/bzip2/decompress.c:463-472 | moving all windows back to the end of the array preserves the list |
| `TwoLevelMtf.TwoLevel.MoveNth` | deps/bzip2/decompress.c:423-474 | for every index: the entry is delivered and the list is the plain move-to-front of the list before |
| `TwoLevelMtf.HandStep` | deps/bzip2/decompress.c:455-460 | handing one entry to the next window overwrites no other entry; the shared boundary cell keeps its value |
| `MoveToFront.MakeMapsE` | deps/bzip2/compress.c:105-115 | bytes in use are numbered in ascending order |
| `MoveToFront.MakeMapsD` | deps/bzip2/decompress.c:27-36 | the inverse map lists the bytes in use in ascending order |
| `MoveToFront.SymsBack` | deps/bzip2/compress.c:105-115 | decoding map and encoding map are inverse on every column the block can have |
| `MoveToFront.EmitRun` | deps/bzip2/compress.c:174-188 | a pending run of zeros is written as its bijective base-2 digits |
| `MoveToFront.FindFront` | deps/bzip2/compress.c:189-207 | the shifting search finds the first position of the symbol and leaves the list moved to front |
| `MoveToFront.CodeOne` | deps/bzip2/compress.c:163-210 | one byte keeps output so far followed by the code of the rest equal to the code of the whole |
| `MoveToFront.GenerateMTFValues` | deps/bzip2/compress.c:120-231 | the symbols written over the pointer array are the code of the last column; no pointer is overwritten before it is read; at most nblock + 1 symbols |
| `MoveToFront.CodeLength` | deps/bzip2/compress.c:136-140 | never more symbols than bytes and the end marker |
| `MoveToFront.DecodeRun` | deps/bzip2/decompress.c:381-398 | a run of legal size is read back and never trips the limit on its weight |
| `MoveToFront.RoundTrip` | deps/bzip2/decompress.c:375-486 | decoding the coded symbols up to the end marker gives the list positions back |
| `HuffmanHeap.UpHeap` | deps/bzip2/huffman.c:33-42 | the new last entry rises to its place, the heap is ordered again and only rearranged |
| `HuffmanHeap.DownHeap` | deps/bzip2/huffman.c:44-59 | the new root sinks to its place, the heap is ordered again and only rearranged |
| `HuffmanHeap.TakeLightest` | deps/bzip2/huffman.c:101-102 | a lightest node is taken off, exactly the others remain |
| `HuffmanLengths.AddWeights` | deps/bzip2/huffman.c:29-31 | packed weights add frequencies and take one more than the larger depth |
| `HuffmanLengths.Merge` | deps/bzip2/huffman.c:103-106 | merging the two lightest trees keeps the forest well formed, dominated and Fibonacci-heavy |
| `HuffmanLengths.MergeOnce` | deps/bzip2/huffman.c:100-110 | one round of the heap loop is one such merge; total weight stays the same |
| `HuffmanLengths.BuildTree` | deps/bzip2/huffman.c:84-110 | the loops end with one tree over all leaves, leaf weights unchanged; assertions 2001 and 2002 hold |
| `HuffmanLengths.DepthFits` | deps/bzip2/huffman.c:114-121 | no leaf is deeper than the depth packed in the root |
| `HuffmanLengths.DeepIsHeavy` | deps/bzip2/huffman.c:114-121 | a tree with a leaf deeper than maxLen weighs at least Fibonacci(maxLen + 3) |
| `HuffmanLengths.TreeKraft` | deps/bzip2/huffman.c:114-121 | leaf depths satisfy the Kraft equation exactly |
| `HuffmanLengths.Measure` | deps/bzip2/huffman.c:114-121 | lengths are the leaf depths, and tooLong says whether one exceeds the limit; entries beyond the alphabet are untouched |
| `HuffmanLengths.Rescale` | deps/bzip2/huffman.c:142-146 | halving lowers the total weight unless it is already at most two per symbol |
| `HuffmanLengths.TooLongTooHeavy` | deps/bzip2/huffman.c:114-146 | a tree that is too deep weighs more than two per symbol, so every retry makes progress |
| `HuffmanLengths.MergeHeavy` | deps/bzip2/huffman.c:103-106 | the sum of two roots reaches the Fibonacci bound of the new depth, because the partner weighs at least as much as the deeper child |
| `HuffmanLengths.MakeCodeLengths` | deps/bzip2/huffman.c:63-148 | ends for 2 to 258 symbols; the lengths, 1 to maxLen with Kraft sum exactly 1, are the leaf depths of a tree merged from the frequencies halved just as often as a tree so merged came out too deep before; never if the frequencies sum to less than Fibonacci(maxLen + 3); entries beyond the alphabet are untouched |
| `HuffmanLengths.LightNeverFails` | deps/bzip2/huffman.c:123-146 | frequencies that sum to less than Fibonacci(maxLen + 3) never give a tree that is too deep |
| `HuffmanCodes.AssignCodes` | deps/bzip2/huffman.c:152-166 | every symbol gets the first code of its length plus its rank among symbols of that length |
| `HuffmanCodes.CodeFits` | deps/bzip2/huffman.c:152-166 | with complete lengths every code fits in its length |
| `HuffmanCodes.PrefixTooLarge` | deps/bzip2/huffman.c:152-166 | the codes are prefix-free: the first n bits of a longer code exceed every code of n bits |
| `HuffmanCodes.SortByLength` | deps/bzip2/huffman.c:180-183 | perm lists the symbols by length, then by number |
| `HuffmanCodes.CreateDecodeTables` | deps/bzip2/huffman.c:170-200 | limit, base and perm are the last codes, offsets and symbols of a canonical code |
| `HuffmanCodes.ReadsBack` | deps/bzip2/decompress.c:74-102 | reading with the tables decodes exactly the codes assigned, whatever bits follow |
| `BitStream.BitWriter.Put` | deps/bzip2/compress.c:58-78 | n bits are appended to everything written before; the 32-bit buffer never loses one |
| `BitStream.BitWriter.Finish` | deps/bzip2/compress.c:45-54 | the bytes written are all bits in order, padded with fewer than eight zeros |
| `BitStream.BitReader.Get` | deps/bzip2/decompress.c:43-71 | the next n bits are delivered exactly when there are that many; otherwise nothing is consumed |
| `BitStream.OrDisjoint` | deps/bzip2/compress.c:76 | or-ing disjoint operands is adding them |
| `BlockFormat.MapBack` | deps/bzip2/decompress.c:266-282 | the 16 group flags and their groups parse back to the set of bytes in use |
| `BlockFormat.SelectorsBack` | deps/bzip2/decompress.c:302-314 | undoing move-to-front on the selectors undoes doing it |
| `BlockFormat.UnariesBack` | deps/bzip2/decompress.c:291-300 | unary selector positions parse back |
| `BlockFormat.TablesBack` | deps/bzip2/decompress.c:316-329 | delta-coded lengths parse back to the tables |
| `BlockFormat.SymbolBack` | deps/bzip2/decompress.c:74-102 | a symbol printed under its group's table parses back |
| `BlockFormat.ExpandIsDecode` | deps/bzip2/decompress.c:372-486 | parsing printed symbols while undoing runs and move-to-front is the same as decoding the symbols |
| `BlockFormat.HeadBack` | deps/bzip2/decompress.c:266-329 | everything before the symbols parses back to the same map, selectors and lengths |
| `BlockEncoder.PackedCost` | deps/bzip2/compress.c:358-385 | sixteen bits are enough for a cost: two costs packed in a word never carry over, and equal the slow version |
| `BlockEncoder.PlainCost` | deps/bzip2/compress.c:389-392 | the cost of a group under each table is the sum of its lengths |
| `BlockEncoder.BestTable` | deps/bzip2/compress.c:399-401 | the cheapest table, the first among equals |
| `BlockEncoder.SelectTables` | deps/bzip2/compress.c:342-435 | one selector for every 50 symbols, each cheapest for its group; the frequencies counted are those of the groups that chose the table |
| `BlockEncoder.RemakeTables` | deps/bzip2/compress.c:449-451 | each table is remade from its own frequencies, halved only after trees that came out too deep, as a complete code of at most 17 bits; unused tables stay |
| `BlockEncoder.ChooseTables` | deps/bzip2/compress.c:322-452 | after the iterations all tables are complete codes made from the frequencies of exactly the groups that selected them, and every selector is the first of the cheapest tables of the iteration before; assertions 3002 to 3005 hold |
| `BlockEncoder.InitialTables` | deps/bzip2/compress.c:280-317 | consecutive ranges, one per table, cheap inside and dear outside, each the shortest that takes its share of the frequency left (every other one giving its last symbol away); no symbol that occurs is left out |
| `BlockEncoder.NextRange` | deps/bzip2/compress.c:287-293 | the shortest range that reaches the frequency aimed at, or all symbols left |
| `BlockEncoder.CodeSelectors` | deps/bzip2/compress.c:461-478 | the selectors are replaced by their move-to-front positions |
| `BlockEncoder.AssignAll` | deps/bzip2/compress.c:480-492 | every table's codes are its canonical codes |
| `BlockEncoder.SendMap` | deps/bzip2/compress.c:494-515 | the bits appended are the printed symbol map |
| `BlockEncoder.SendHead` | deps/bzip2/compress.c:494-539 | the bits appended are the printed head: map, counts, selectors, lengths |
| `BlockEncoder.SendSymbols` | deps/bzip2/compress.c:544-594 | the bits appended are the printed symbols, 50 per selector; assertions 3006 and 3007 hold |
| `BlockEncoder.SendMTFValues` | deps/bzip2/compress.c:239-598 | the bits appended are those of a head and symbols the parser accepts; the tables in the head are those the iterations end with |
| `BlockDecoder.ReceiveMap` | deps/bzip2/decompress.c:266-283 | reading agrees with the parser: same map, same rest, same failures |
| `BlockDecoder.ReceiveSelectors` | deps/bzip2/decompress.c:289-314 | reading agrees with the parser for the selectors |
| `BlockDecoder.ReceiveTables` | deps/bzip2/decompress.c:316-329 | reading agrees with the parser for the lengths |
| `BlockDecoder.ReceiveHead` | deps/bzip2/decompress.c:266-329 | reading agrees with the parser for the whole head |
| `BlockDecoder.BuildTables` | deps/bzip2/decompress.c:331-347 | every decoding table is the one for its lengths |
| `BlockDecoder.ReceiveSymbol` | deps/bzip2/decompress.c:74-102 | one symbol, switching tables every 50 symbols, as the parser reads it |
| `BlockDecoder.StepRun` | deps/bzip2/decompress.c:379-417 | a run is undone and delivered as the parser says, with all data errors |
| `BlockDecoder.StepMove` | deps/bzip2/decompress.c:419-485 | a move-to-front symbol of the alphabet is undone through the two-level array and delivered as the parser says |
| `BlockDecoder.ReceiveSymbols` | deps/bzip2/decompress.c:349-486 | the decoding loop delivers exactly what the parser expands, counts it in unzftab, and fails exactly when the parser fails |
| `BlockCodec.PutStart` | deps/bzip2/compress.c:630-650 | magic, block CRC, randomised bit and pointer are appended |
| `BlockCodec.StartBack` | deps/bzip2/decompress.c:224-259 | from the second byte on, the block header parses back |
| `BlockCodec.CompressBlock` | deps/bzip2/compress.c:602-653 | the bits appended encode the block: some sorted order, its pointer, its code under complete tables; the block is left as it was |
| `BlockCodec.ReceiveBlock` | deps/bzip2/decompress.c:224-492 | from the second byte of the header to the last symbol, reading agrees with parsing: the same values, the same errors, the same bits left |
| `BlockCodec.BlockParses` | deps/bzip2/decompress.c:224-492 | an encoded block parses to its header and the positions of its last column, whatever follows |
| `BlockCodec.Unwalk` | deps/bzip2/decompress.c:559-576 | the FAST walk delivers the bytes of the specified walk |
| `BlockCodec.DecompressBlock` | deps/bzip2/decompress.c:224-578 | decoding any encoding of a block gives the block back, and consumes exactly its bits |
| `RunLength.FlatBack` | deps/bzip2/bzlib.c:589-681 | separated runs read back to their text |
| `RunLength.Encoder.AddPair` | deps/bzip2/bzlib.c:216-247 | a run goes into the block in its written form, its CRC and byte marks with it, at most five bytes |
| `RunLength.Encoder.AddChar` | deps/bzip2/bzlib.c:260-284 | block and pending run together stand for one more byte, by either path of the macro |
| `RunLength.Encoder.FlushRL` | deps/bzip2/bzlib.c:252-256 | afterwards the block alone stands for everything put in, and its CRC is the CRC of that text |
| `RunLength.Decoder.StartRun` | deps/bzip2/bzlib.c:632-660 | the next run is read: up to four equal bytes and a count after the fourth |
| `RunLength.Decoder.Produce` | deps/bzip2/bzlib.c:589-681 | with any amount of space: output only grows, as far as space or block goes; corruption is reported only for blocks that stand for nothing |
| `RunLength.Decoder.AllOut` | deps/bzip2/bzlib.c:632-639 | at the end of a block exactly its text has been written and the CRC is the CRC of it |
| `RunLength.DecodeBlock` | deps/bzip2/bzlib.c:536-682 | however the output space is split over calls, what comes out is a beginning of the text the block stands for, and all of it as soon as there is enough space; corruption is reported only for blocks that stand for nothing, and for those always once there is enough space |
| `RunLength.RoundTrip` | deps/bzip2/bzlib.c:252-284 | any text, run-length coded, decodes to itself with any split of the output space, with the same CRC; finished exactly when the space is at least the text |
| `BzCompress.Compressor.CopyInput` | deps/bzip2/bzlib.c:289-329 | no byte lost: taken and remaining input together stay the same; stops when the block is full or the input empty; progress is reported exactly if a byte was taken, and one is taken exactly if there is one and the block is not full |
| `BzCompress.Compressor.CopyOutput` | deps/bzip2/bzlib.c:334-356 | the next bytes of the stream go to the caller in order; stops when all is out or no space is left; progress is reported exactly if a byte was handed out |
| `BzCompress.Compressor.CompressBlock` | deps/bzip2/compress.c:602-667 | finished blocks, current block and pending run together still stand for all input taken, and the bits written are header, encoded blocks and, after the last block only, the trailer with the combined CRC |
| `BzCompress.Compressor.Emit` | deps/bzip2/compress.c:602-667 | one call appends header, block and trailer as they are due; bytes already handed out are never changed |
| `BzCompress.Compressor.HandleCompress` | deps/bzip2/bzlib.c:361-403 | keeps the invariant of the stream over every path of the loop, and ends: all input taken and all due output out, or all space used; reports progress exactly if a byte was taken or handed out, which the state before the call decides; blocks are closed only when full, but for the last one of a flush or finish |
| `BzCompress.Compressor.TakeInput` | deps/bzip2/bzlib.c:384-399 | the input half: a block is closed if it is full or at the end of the announced input, and otherwise all input is taken |
| `BzCompress.Compressor.GiveOutput` | deps/bzip2/bzlib.c:370-382 | the output half: stops for want of space or at the end of a flush or finish, and otherwise everything is out and a new block begins |
| `BzCompress.Compressor.BzCompress` | deps/bzip2/bzlib.c:407-464 | every call, legal or not, keeps the invariant and gives the right answer: BZ_SEQUENCE_ERROR exactly for a call out of sequence or a finish without progress, BZ_PARAM_ERROR exactly for a run without progress, BZ_STREAM_END exactly when the mode becomes idle, and then the bytes handed out are one whole stream of all input taken; BZ_FINISH_OK and BZ_FLUSH_OK only with all space used; whether there is progress is decided by what is waited for; and each call that stops for want of space has come nearer to the end |
| `BzCompress.Compressor.RunCall` | deps/bzip2/bzlib.c:424-427 | a run takes all input or uses all space, with progress exactly if there is input for an open block or space for bytes ready |
| `BzCompress.Compressor.FlushCall` | deps/bzip2/bzlib.c:443-451 | a flush is over exactly when all input is in finished blocks and every byte of them is handed out; until then all space is used |
| `BzCompress.Compressor.FinishCall` | deps/bzip2/bzlib.c:453-462 | a finish without progress is refused; it is over when everything is handed out, and until then all space is used |
| `BzStream.PackBlock` | deps/bzip2/compress.c:602-653 | a block that is not empty is appended in some encoding, with its CRC |
| `BzStream.PackPush` | deps/bzip2/compress.c:606-608 | one more block extends the bits of the stream and its combined CRC |
| `BzStream.PutHeader` | deps/bzip2/compress.c:622-628 | the stream header |
| `BzStream.PutTrailer` | deps/bzip2/compress.c:656-662 | the end of the stream with its combined CRC |
| `BzStream.ReadHeader` | deps/bzip2/decompress.c:199-220 | the stream header is read back, the block size with it |
| `BzStream.ReadItem` | deps/bzip2/decompress.c:222-578 | an encoded block is read back as that block, a trailer as its CRC, each with exactly its bits |
| `BzDecompress.DecodeText` | deps/bzip2/bzlib.c:817-840 | called with any positive spaces until the end of a block: the text of the block, or corruption exactly if it stands for none |
| `BzDecompress.Decompress` | deps/bzip2/bzlib.c:808-858 | a stream of well-formed blocks, with any checksums and any trailer, is decoded to the texts of its blocks if every block stands for a text and carries the CRC of it and the trailer carries the CRC of them all, and is refused as a data error if not, whatever the encoder chose, whatever follows, and whatever the output space is cut into |
| `BzDecompress.TellingExactly` | deps/bzip2/bzlib.c:826-834 | what the decoder finds out about a block decides whether it carries the CRC of its text |
| `BzDecompress.CompleteTells` | deps/bzip2/bzlib.c:407-464 | the blocks of a finished compression stand for its input, each with the CRC of its text |
| `BzDecompress.RoundTrip` | deps/bzip2/bzlib.c:808-858 | whatever calls a stream was compressed by, once BZ_STREAM_END has been answered the bytes handed out decode to the bytes taken in |
| `BzSession.FeedText` | deps/bzip2/bzlib.c:424-427 | offering any text in pieces, with any positive spaces, calls with BZ_RUN end with all of it taken |
| `BzSession.FlushText` | deps/bzip2/bzlib.c:443-451 | calls with BZ_FLUSH and any positive spaces come to BZ_RUN_OK, with all input in blocks and all of these handed out to the byte |
| `BzSession.FinishText` | deps/bzip2/bzlib.c:453-462 | calls with BZ_FINISH and any positive spaces come to BZ_STREAM_END |
| `BzSession.CompressAll` | deps/bzip2/bzlib.c:407-464 | any sequence of texts fed in or flushed, then finished, comes to the end of a stream of all of it |
| `BzSession.CompressAndRestore` | deps/bzip2/bzlib.c:808-858 | for every level, work factor, sequence of texts fed, flushed and finished, and all pieces and positive spaces: compression ends, and what it hands out decodes to the texts |
| `RollingHash.UpdateForgets` | deps/zlib/deflate.c:163 | each update forgets the oldest bits of the key |
| `RollingHash.ThreeBytes` | deps/zlib/deflate.c:163 | after three updates the key depends on the last three bytes only |
| `RollingHash.ThirdByte` | deps/zlib/deflate.c:1341-1345 | equal keys and two equal bytes make the third byte equal |
| `HashChains.InsertString` | deps/zlib/deflate.c:177-185 | the chains stay ordered by position, pure in key and without gaps; the head returned is the last string inserted before with the same key |
| `HashChains.SlideHash` | deps/zlib/deflate.c:204-228 | all chains survive the move of the window without gaps, cut off where they leave it |
| `HashChains.ThirdByteEqual` | deps/zlib/deflate.c:1375-1382 | the byte of a candidate that is never compared is equal |
| `HashChains.MatchLength` | deps/zlib/deflate.c:1384-1397 | the unrolled comparison stops at the first difference or at 258 bytes, and stays inside the window |
| `HashChains.TryCandidate` | deps/zlib/deflate.c:1370-1397 | a candidate that passes the tests repeats the current string for the length found; no candidate repeats it for longer than that, or than the best so far |
| `HashChains.FollowLink` | deps/zlib/deflate.c:1412-1413 | the next candidate is earlier and has the same key, and no string with that key was inserted between |
| `HashChains.LongestMatch` | deps/zlib/deflate.c:1276-1417 | a result longer than prevLength comes with a start within reach that repeats the text for that length; never longer than the lookahead; at least as long as the match of every candidate tried along the chain; and unless it is nice enough or the chain length is used up, no string inserted in reach has a longer match |
| `HashChains.TriedAll` | deps/zlib/deflate.c:1256-1260 | if all strings with the key of the current one have been tried down to the limit, the best result is the longest match in reach, since three equal bytes mean equal keys |
| `Deflate.Compressor.SlideWindow` | deps/zlib/deflate.c:1550-1560 | window, dictionary and pending match mean the same after the move, the pending match even when it starts before the window |
| `Deflate.Compressor.ReadMore` | deps/zlib/deflate.c:1576-1577 | as much input as fits is appended to the text the window shows |
| `Deflate.Compressor.FillWindow` | deps/zlib/deflate.c:1522-1641 | keeps all invariants; afterwards enough lookahead or no input, and always room for a search |
| `Deflate.Compressor.Look` | deps/zlib/deflate.c:2004-2030 | any match kept or found is a repetition within reach; unless the previous match is lazy enough, the match found is the longest in reach, nice enough, or the best of as many as may be tried; only matches of at most five bytes are discarded |
| `Deflate.Compressor.TakePrevious` | deps/zlib/deflate.c:2034-2057 | the previous match is emitted one byte late at the right distance, all of its strings that have three bytes are inserted, tokens stand for all bytes before the current one |
| `Deflate.Compressor.Defer` | deps/zlib/deflate.c:2061-2081 | the pending byte becomes a literal, or the decision waits |
| `Deflate.Compressor.SlowStep` | deps/zlib/deflate.c:2004-2090 | the previous match is emitted exactly if it has three bytes and the search now made finds nothing longer; otherwise the pending byte becomes a literal and the match found is kept |
| `Deflate.Compressor.DeflateSlow` | deps/zlib/deflate.c:1974-2097 | whenever it returns, the tokens stand for the input up to the current byte, less one if a decision is pending; for all of it at the end |
| `Deflate.Compressor.TakeMatch` | deps/zlib/deflate.c:1912-1948 | the match is emitted and the dictionary stays in order whether or not its strings are inserted |
| `Deflate.Compressor.FastStep` | deps/zlib/deflate.c:1890-1955 | a match is emitted exactly if the search finds one of three bytes or more, and then the one found; otherwise a literal |
| `Deflate.Compressor.DeflateFast` | deps/zlib/deflate.c:1872-1966 | whenever it returns, the tokens stand for the input up to the current byte; for all of it at the end |
| `Deflate.RunSlow` | deps/zlib/deflate.c:1974-2097 | every run from a fresh compressor, any calls with any chunks, input left over or passed along with Z_FINISH, any output space: tokens expand to exactly the input, lengths 3 to 258, distances 1 to w_size - 262 |
| `Deflate.RunFast` | deps/zlib/deflate.c:1872-1966 | the same for deflate_fast |
| `DeflateInflate.CompressAndRestore` | deps/zlib/infback.c:482-604 | whatever the level and the calls, what either compressor emits is restored by inflateBack, whichever symbols inflate_fast decodes |
| `InflateBack.BackWindow.Room` | deps/zlib/infback.c:210-221 | sending a full window keeps the history |
| `InflateBack.BackWindow.CopyChunk` | deps/zlib/infback.c:586-604 | one stretch of the circular copy is the plain history copy of its length |
| `InflateBack.BackWindow.CopyMatch` | deps/zlib/infback.c:578-604 | the slow path copies a match exactly when its distance is within window and output so far, else reports it |
| `InflateBack.BackWindow.FastMatch` | deps/zlib/inffast.c:169-264 | inflate_fast with the window as its own output accepts exactly the distances up to output position plus whave, and copies right whenever the source is in the history |
| `InflateBack.BackWindow.Dispatch` | deps/zlib/infback.c:484-491 | entering inflate_fast fixes whave once, leaving the history alone |
| `InflateBack.BackWindow.Take` | deps/zlib/infback.c:484-604 | a symbol on either path passes exactly by the test of that path, and one that makes sense gives its expansion |
| `InflateBack.Inflate` | deps/zlib/infback.c:482-604 | for any interleaving of the two paths: an error exactly when some match fails the test of its path; symbols that make sense always arrive as their expansion |
| `InflateBack.PassesExactly` | deps/zlib/inffast.c:169-175 | a match whose source is held passes on either path; one that passes has its source held exactly if it does not slip through: beyond the window beginning with nothing sent yet, or further back than the window |
| `InflateBack.AcceptedExactly` | deps/zlib/infback.c:484-491 | sensible runs are accepted on every path; an accepted run is sensible if and only if no match slips through inflate_fast |
| `InflateBack.AcceptedWithoutSense` | deps/zlib/infback.c:484-491 | three literals, then distance 5 read by inflate_fast on the next entry: accepted, though only three bytes exist; the slow path refuses it |
| `Lz77.CopyReproduces` | deps/zlib/deflate.c:1488-1506 | copying a repetition reproduces the text, overlap included |
| `InflateCopy.FromWindow` | deps/zlib/inffast.c:199-250 | with output apart from the window, as inflate() calls it: the three cases of the window copy, at the end, wrapped and contiguous, all are the plain history copy |
| `InflateCopy.CopyFromOutput` | deps/zlib/inffast.c:251-264 | three bytes at a time from the output itself is the plain overlapping copy |
| `InflateCopy.FastCopy` | deps/zlib/inffast.c:169-264 | with output apart from the window, as inflate() calls it: the match copy is the plain history copy, and is refused if and only if the distance reaches before the window |
| `CrcPoly.TimesNonZero` | deps/zlib/crc32.c:539-541 | x is invertible modulo the polynomial: its powers are never zero |
| `CrcPoly.MulPower` | deps/zlib/crc32.c:562-565 | multiplying by x^n is n single steps |
| `CrcPoly.MulSwap` | deps/zlib/crc32.c:538-541 | multiplication modulo the polynomial is commutative |
| `CrcPowers.PowersWrap` | deps/zlib/crc32.c:289-293 | x^(2^32) is x again |
| `CrcPowers.PowerMod` | deps/zlib/crc32.c:575 | the table of 32 powers may be indexed modulo 32 |
| `Crc32.TimesByte` | deps/zlib/crc32.c:766 | eight steps of a word are its upper bytes and eight steps of its low byte |
| `Crc32.UpdateByte` | deps/zlib/crc32.c:766 | one table step is eight steps bit by bit |
| `Crc32.MultModP` | deps/zlib/crc32.c:542-560 | the product modulo the polynomial, for every non-zero first factor; the loop ends |
| `Crc32.X2nModP` | deps/zlib/crc32.c:566-580 | x^(n 2^k) modulo the polynomial for every n and k, and never zero |
| `Crc32.MakeByteTable` | deps/zlib/crc32.c:278-287 | entry i is i after eight steps |
| `Crc32.MakePowerTable` | deps/zlib/crc32.c:289-293 | entry n is x^(2^n) |
| `Crc32.MakeBraid` | deps/zlib/crc32.c:505-522 | table k advances byte k of a word past the words of all braids, for any braid count and word size |
| `Crc32.CrcJoin` | deps/zlib/crc32.c:1072-1081 | the CRC of two pieces is the first CRC times x^(8 len2) plus the second |
| `Crc32.Combine` | deps/zlib/crc32.c:1072-1081 | crc32_combine64 gives the CRC of the concatenation, for all pieces |
| `Crc32.CrcWord` | deps/zlib/crc32.c:717-724 | the register after the bytes of one word |
| `Crc32.BraidBlock` | deps/zlib/crc32.c:945-1005 | every braid takes its word and moves on by one block |
| `Crc32.CombineBlock` | deps/zlib/crc32.c:1007-1028 | the last block joins the braids to one register |
| `Crc32.Braided` | deps/zlib/crc32.c:769-1035 | any number of blocks: braids and combination equal the bit-by-bit register |
| `Crc32.Crc32Z` | deps/zlib/crc32.c:739-1058 | for any start, alignment, length, braid count and word size the result is the bit-by-bit CRC; at least one block after alignment, so the predecrement never wraps |
| `CrcLaws.Residue` | deps/zlib/crc32.c:739-1058 | a message followed by its CRC, low byte first, has the CRC 0x2144df1c, for every message and start |
| `CrcLaws.LeadingZero` | deps/zlib/crc32.c:752 | a leading zero byte changes the CRC: the complement before the first byte |
| `CrcLaws.BurstDetected` | deps/zlib/crc32.c:739-1058 | any change within four bytes in a row changes the CRC |
| `CrcLaws.KnownValues` | deps/zlib/crc32.c:1057 | the CRC of nothing is 0, and that of the byte 0x61 is 0xe8b7be43 |
| `Adler32.PlainReduced` | deps/zlib/adler32.c:102-112 | reductions can be put off to the end of a block |
| `Adler32.NmaxIsTight` | deps/zlib/adler32.c:13-14 | NMAX is the largest block length for which the bound fits in 32 bits |
| `Adler32.FitsBlock` | deps/zlib/adler32.c:102-112 | no 32-bit overflow inside a block of at most NMAX bytes |
| `Adler32.Mod28Right` | deps/zlib/adler32.c:33-37 | MOD28 without division is the remainder on its range |
| `Adler32.ModRight` | deps/zlib/adler32.c:38-42 | MOD without division is the remainder for all 32-bit values |
| `Adler32.Mod63Right` | deps/zlib/adler32.c:43-55 | MOD63 without division is the remainder below 2^63 |
| `Adler32.AdlerZ` | deps/zlib/adler32.c:63-131 | from every reduced start value, by any of the length paths: the two modular sums of section 2.2 of RFC 1950 |
| `Adler32.CombineRight` | deps/zlib/adler32.c:156-163 | the congruences behind the combination formula |
| `Adler32.Combine` | deps/zlib/adler32.c:143-169 | the checksum of two pieces from their checksums and the length of the second |
| `Sfmt.ShiftsBy64` | deps/SFMT/SFMT-common.h:60-116 | shifting two 64-bit halves carries bytes between the four words like a 128-bit shift |
| `Sfmt.DoRecursion` | deps/SFMT/SFMT-common.h:142-158 | word by word, in memory that may be the first operand itself, the recursion formula; every refill and fill loop uses it |
| `Sfmt.RecIsWide` | deps/SFMT/SFMT-common.h:142-158 | the recursion formula is a ^ (a << 8 SL2) ^ ((b >> SR1) & MSK) ^ (c >> 8 SR2) ^ (d << SL1), with the whole shifts on 128-bit numbers and the others word by word |
| `Sfmt.Continues` | deps/SFMT/SFMT.c:245-263 | restarting the recurrence from any N consecutive terms continues the same sequence |
| `Sfmt.Generator.GenRandAll` | deps/SFMT/SFMT.c:245-263 | in place, the state moves on by exactly N terms |
| `Sfmt.Generator.FillStart` | deps/SFMT/SFMT.c:99-110 | the first N terms, from state and array |
| `Sfmt.Generator.FillMiddle` | deps/SFMT/SFMT.c:111-116 | terms from the array alone, up to the last N |
| `Sfmt.Generator.GenRandArray` | deps/SFMT/SFMT.c:95-128 | any array of at least N elements gets the next terms, and the state the last N of them |
| `Sfmt.Generator.GenRandUint32` | deps/SFMT/SFMT.h:139-149 | the next word of the sequence, refilling when the state is used up |
| `Sfmt.Generator.FillArray32` | deps/SFMT/SFMT.c:293-300 | the next 4 size words of the same sequence |
| `Sfmt.BulkIsOneByOne` | deps/SFMT/SFMT.c:293-300 | bulk filling and single calls give the same words, and the same state when N divides the number of terms |

## Left out

- BlockSort.BlockSort: block and quadrant are arrays of their own, and so is ftab, where the source overlays them on arr2 and bhtab.
- MainSort.MainSort: unrolled loops are loops, and the values of the cache are set to zero in a loop apart from the counting.
- QuadrantCache.MainGtU: the unrolled comparisons are loops of twelve and of eight.
- BzDecompress.Decompress: the streams it is stated for have well-formed blocks; all of the input is at hand from the start; output space comes in pieces of at least one byte, as calls without any space change nothing. The answers other than `BZ_STREAM_END` are not told apart beyond lack of input and data errors.
- BzStream.PackBlock: the words the sorter works on are a copy of the block, where the source overlays both.
- BzCompress.Compressor.CopyOutput: zbits keeps the bytes of earlier blocks, where the source starts again at its beginning; `stateOutPos` and `numZ` count within the current block.
- bzip2: `BZ2_rNums`, so the mask of randomised blocks is a parameter. Encoders never set the bit.
- bzip2: the SMALL variant of the run-length decoder; the walks of the FAST and the SMALL variant are proved equal.
- bzip2: suspending in the middle of a block. A read that lacks input consumes nothing, and the block is then reported as starved; resuming with saved local variables is not modelled.
- bzip2: `selectorMtf` and `selector` are sequences without an upper bound.
- BlockDecoder.StepMove: a symbol outside the alphabet, which only a malformed table can produce from entries of `perm` that were never written, is treated as a data error.
- BlockCodec.ReceiveBlock: the same entries of `perm` are data errors here, and a block is not suspended in the middle.
- bzip2: allocation, the stdio interface and verbose output.
- BlockEncoder.ChooseTables: not that four iterations improve anything.
- HuffmanLengths.MakeCodeLengths: does not state that the lengths are optimal, and needs a total weight below 2^23 and maxLen of at least 12; the only caller has at most 900001 symbols and maxLen 17.
- RunLength.Encoder.AddPair: the CRC update is a function parameter, so bzip2's CRC table is not part of this model.
- Deflate.Compressor.DeflateSlow: flush values other than Z_NO_FLUSH and Z_FINISH, and strings left over for insertion between calls, which only those produce.
- Deflate.Compressor.FlushBlock: does not write anything; `trees.c` is not part of this model, and tokens are the output.
- HashChains.LongestMatch: the string at window index 0 is never found, in the source either; `match_start` is an integer.
- Deflate.RunSlow: which matches a whole run chooses is stated step by step (`SlowStep`, `FastStep`), not for the run.
- HashChains.SlideHash: positions are integers, not 16-bit words; the match start that wraps below zero is an integer of value -1 or more.
- zlib: `deflate_stored`, `deflate_rle`, `deflate_huff`, dictionaries, parameters, headers and trailers; the FASTEST and UNALIGNED_OK variants.
- zlib: `inflate.c` and `inftrees.c` are not part of this model; the decoders start from decoded literals, lengths and distances.
- InflateCopy.FastCopy: the variant that allows distances too far back.
- InflateBack.BackWindow.Room: a failing out() callback.
- Crc32.Crc32Z: big-endian and ARM variants, and a null buffer.
- Crc32.CrcWord: a word is the sequence of its bytes; exclusive-or of words is done byte by byte.
- Crc32.Combine: negative lengths.
- Adler32.AdlerZ: start values that are not reduced, and a null buffer.
- Adler32.Combine: negative lengths, which the source answers with an invalid value.
- SFMT: SIMD, 64-bit and big-endian variants, initialisation and period certification, floating-point conversions.
- Sfmt.Generator.GenRandArray: the array and the state are different objects, as separate arguments are in the source.
