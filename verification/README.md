# Verification of the bzip2 and zlib codecs

A Dafny model of the two compression libraries kept under `dep/`, with proofs of what they are for. Arrays are arrays,
loops are loops, and the state of a stream is a class whose methods update its fields; each is proved against functions
and predicates on sequences, about which the lemmas are stated.

**bzip2, end to end.** Input is turned into runs and blocks (`RunLength`, `RunLengthEncoder`, `Compressor`). The
rotations of a block are sorted: `MainSort` with its bucket, copy and quadrant scheme (`MainQuickSort`, `CopyScan`,
`CopyBuckets`), `FallbackSort` by prefix doubling (`FallbackQuickSort`, `HeaderBits`), both against one specification,
`Rotations.IsRotationOrder`: a permutation that lists the rotations in non-decreasing cyclic order. The last column is
coded by move-to-front and RUNA/RUNB digits (`MoveToFront`, `MtfEncoder`), these by Huffman codes (`HuffmanHeap`,
`HuffmanTree`, `HuffmanDepths`, `HuffmanOptimal`, `HuffmanLengths`, `Huffman`, `CodingTables`, `BlockCoder`), and the
bits are written by `BitStream`, `BlockWriter` and `StreamWriter`. Each stage has its decoder: `BlockReader`,
`SymbolReader`, `MtfSegments` (the list in 16 segments), `ColumnDecoder`, `InverseVectors` (the FAST and the SMALL form
of the inverse transform), `RunLengthDecoder`, `StreamReader`, `BlockDecompressor`, `Decompressor`, and
`SelectorReader` for the selectors. `StreamFormat` says what a stream for given input is, `BlockSizes` how large a
block can become, `StreamChecks` what checksums a stream vouches for, `FormatMeaning` and `BlockCrcRemainder` what
numbers, checksums and digits in it mean apart from how they are written and read, and `RoundTrip` puts both sides
together.

**zlib, four separable parts.** CRC-32 in its bytewise, little-endian and big-endian forms and its combination over
GF(2) matrices (`Gf2`, `Crc32`, `Crc32Big`, `Crc32Combine`), and as the remainder of a polynomial (`Polynomials`,
`CrcRemainder`); Adler-32 with its deferred reductions (`Adler32`); decoding, that is `inflate_table` against the
canonical code of section 3.2.2 of RFC 1951 (`CanonicalCodes`, `DecodeTables`, `TableFilling`, `TableSizing`,
`TableGrowth`, `InflateTable`) and the states LEN to LIT, `inflate_fast` and the window against sections 3.2.3 and 3.2.5
(`InflateSpec`, `BitAccumulator`, `SlidingWindow`, `Inflate`, `InflateBlock`); and the LZ77 stage of deflate with its
hash chains, lazy matching and sliding window (`HashKeys`, `HashChains`, `MatchSearch`, `LzSymbols`, `Deflate`).

`Permutations`, `Sums`, `Bits`, `BitFields`, `ReversedBits`, `Buckets` and `PartitionStack` hold what several parts
share.

Where code and documentation differ, or the code does not do what one would expect of it, the code is followed:

- The comment at `dep/bzip2/blocksort.c:964-985` says that of two positions with equal bytes the one with the smaller
  quadrant comes strictly first. Equal rotations of a periodic block get different quadrants, so what holds, and is
  enough for both sorters, is that it does not come after the other (`MainSort.UpdateQuadrants`).
- A bzip2 stream has at most BZ_MAX_SELECTORS = 18002 selectors in a block, and the arrays for them have that many
  entries (`dep/bzip2/bzlib_private.h:125`, `402-403`). `dep/bzip2/decompress.c:289-300` reads a count of 15 bits and
  refuses only 0, so a larger count leads behind the end of the arrays. The model has arrays of the declared size and
  stops with `Overrun` (`OutOfBounds` for the whole stream) where the code would store behind them:
  `SelectorReader.TooManySelectors` gives an input, `SelectorReader.SentOverruns` and `SelectorReader.ReadSelectors`
  say exactly when it happens, and `RoundTrip.DecompressAny` what that means for a whole input. For every other input
  all accesses stay within their arrays, blocks of the randomised kind aside (see below); the streams of an encoder
  never have too many selectors.
- A flush that has returned BZ_RUN_OK has put all input into finished blocks, but not all their bytes have been
  delivered: the bits written last stay in bsBuff, and whole bytes among them too. `Compressor.FlushedTo` says which
  bits these are, `Compressor.WholeBytesDelivered` when all whole bytes are delivered, as an if-and-only-if on how many
  bits have been written and how many of them last, and `RoundTrip.FlushNothing` gives a flush that falls short.
- `adler32` with a single byte subtracts BASE at most once from the second sum. For an upper half of 65521 or more,
  which no checksum has, that may not be enough. `Adler32.Adler32` states when the result is right, as an
  if-and-only-if; `Adler32.NotAlwaysReduced` gives a starting value and a byte for which it is not. Likewise
  `adler32_combine` subtracts BASE a fixed number of times, which is enough exactly under `Adler32.CombineReduces`: for
  all checksums, but not for all numbers (`Adler32.NotAlwaysCombined`).
- `inflate` may accept a distance that reaches further back than the window, if the byte is still in the output buffer
  of the call. `InflateBlock.DecodeBlock` says that it either repeats that byte or reports an error there.
- `dep/zlib/inftrees.h:38-51` says that ENOUGH entries suffice; `inflate_table` refuses tables of exactly that size
  (`used >= ENOUGH_LENS`). `DecodeTables.Verdict` has the comparison of the code.
- The note at `dep/zlib/inffast.c:46` asks for fewer than 8 bits on entry. `inflate` can arrive with up to 7 bits more
  than the next code needs; `InflateFast` is proved from that weaker condition.
- FAST and SMALL decoding differ on a block that stops inside a run when the room is exactly what is owed: FAST reports
  corruption at once, SMALL on the next call.

## Model

| member | source | states |
|---|---|---|
| RoundTrip.RoundTrip | dep/bzip2/bzlib.c:407-464 | Compressing any bytes and decompressing the result gives the same bytes, in the FAST and the SMALL form, at every level and work factor, on machines of either byte order, for all positive output buffer sizes when compressing and all sizes when decompressing; once the buffers offered exceed the size of the data, the end has been reported. |
| RoundTrip.CompressAll | dep/bzip2/bzlib.c:433-461 | BZ_FINISH repeated with any positive room each time never ends in an error, terminates, and reaches the end of the stream with all input consumed, every delivery within its room, and every block but the last one full (at least 100000 * level - 19 bytes). |
| RoundTrip.Restore | dep/bzip2/bzlib.c:360-464 | Whatever calls to BZ2_bzCompress brought a stream to its end, in whatever pieces input and output came, with or without flushes: decompressing what was delivered gives back the input of all the calls. |
| RoundTrip.DecompressAll | dep/bzip2/bzlib.c:808-858 | A complete stream for x, arriving in any pieces, is decompressed to x piece by piece through any sequence of buffers: each call succeeds and fills its buffer until one reports the end, and then exactly x has been put out. |
| RoundTrip.DecompressAny | dep/bzip2/bzlib.c:815-850 | For any bytes, a stream or not: if the end is reported with no error before, the output consists of blocks each of which has its checksum behind a block magic number in the input, these come after a stream header in the order of the blocks without overlapping, and behind the last of them their combined checksum stands behind an end magic number. The selector arrays are overrun only if some block in the input comes with more than BZ_MAX_SELECTORS selectors, and always if the first one does. |
| RoundTrip.FlushAll | dep/bzip2/bzlib.c:421-447 | From any state of a running stream, BZ_FLUSH repeated with any positive rooms terminates with BZ_RUN_OK: the input is consumed and in finished blocks, and all that header and blocks add up to has been delivered except the bits held back. |
| RoundTrip.FlushNothing | dep/bzip2/bzlib.c:439-447 | A flush of a new stream delivers 3 of the 4 header bytes. |
| Compressor.WholeBytesDelivered | dep/bzip2/compress.c:58-78 | After a flush (all - last) % 8 + last bits are held back, all being the length of header and blocks in bits and last that of the piece written last: all whole bytes have been delivered if and only if that is less than 8. |
| FallbackQuickSort.FallbackSimpleSort | dep/bzip2/blocksort.c:32-59 | The slice of fmap is rearranged, nothing else is changed, and the slice ends sorted by eclass. |
| FallbackQuickSort.HalvingDepth | dep/bzip2/blocksort.c:106-179 | With the larger part pushed first, a stack whose top is still to be partitioned has fewer than 28 entries below it, for every slice of up to 2^31 elements; so assertion 1004, which allows 99, holds. |
| FallbackQuickSort.FallbackQSort3 | dep/bzip2/blocksort.c:92-180 | For every slice up to 32-bit size: terminates, rearranges the slice only, and leaves it sorted by eclass. |
| PartitionStack.Partition3 | dep/bzip2/blocksort.c:132-170 | The two-pointer scan with equal elements parked at both ends, and the exchange of the runs afterwards: either all keys equal the pivot, or the slice is rearranged into keys below, equal to and above the pivot, with the boundaries returned. The scan of mainQSort3 is the same. |
| HeaderBits.NextClear | dep/bzip2/blocksort.c:277-283 | Skipping 32 header bits at a time finds the first clear bit at or after the start, given that one exists. |
| HeaderBits.NextSet | dep/bzip2/blocksort.c:286-290 | Likewise the first set bit. |
| FallbackSort.RefinePass | dep/bzip2/blocksort.c:273-306 | One pass over buckets that are exactly the classes equal on the first H cyclic bytes, in order, makes them exactly the classes for 2H bytes; if no bucket was left unfinished then every position starts a bucket. |
| FallbackSort.PairDoubles | dep/bzip2/blocksort.c:295-311 | Two positions of a finished pass are in order on 2H bytes, and neighbours are in the same bucket exactly when they agree on all of them. |
| FallbackSort.FinalOrder | dep/bzip2/blocksort.c:311-312 | When every position starts a bucket or H has passed the block size, the list is the rotation order, for periodic blocks too. |
| FallbackSort.Reconstruct | dep/bzip2/blocksort.c:315-328 | The block whose storage served for the classes is rebuilt byte for byte from the sorted list and the saved counts. |
| FallbackSort.FallbackSort | dep/bzip2/blocksort.c:211-329 | For every non-empty block: terminates, leaves fmap a permutation listing the rotations in non-decreasing cyclic order, ties in any order, and the block as it was. |
| MainQuickSort.MainGtU | dep/bzip2/blocksort.c:345-469 | All reads stay within nblock + BZ_N_OVERSHOOT, for starting points up to nblock + 14; True only if the first rotation is not before the second, False only if it is not after it, whatever the quadrants are as long as they agree with the order. |
| MainQuickSort.MainSimpleSort | dep/bzip2/blocksort.c:484-555 | Rearranges the slice only; unless the budget runs out, the slice ends in rotation order. |
| MainQuickSort.Mmed3 | dep/bzip2/blocksort.c:581-592 | The result is one of the three and lies between the other two. |
| MainQuickSort.ShrinkingDepth | dep/bzip2/blocksort.c:596-717 | With the three parts pushed largest first, a stack whose top is still to be partitioned has fewer than 34 entries below it; so assertion 1001 holds. |
| MainQuickSort.MainQSort3 | dep/bzip2/blocksort.c:620-717 | For rotations that agree on the first d bytes: terminates, rearranges the slice only, and unless the budget runs out leaves it in rotation order. |
| MainSort.CountKeys | dep/bzip2/blocksort.c:769-792 | ftab counts how often each pair of cyclically adjacent bytes occurs. |
| MainSort.PlaceRotations | dep/bzip2/blocksort.c:802-830 | ptr becomes a permutation bucketed by the first two bytes, and ftab holds where each of the 65536 buckets starts. |
| MainSort.InsertBig | dep/bzip2/blocksort.c:848-859 | One insertion of the shell sort keeps the running order a permutation of the 256 bytes, and at stride 1 extends the part that is sorted by bucket size. |
| MainSort.SortSmallBuckets | dep/bzip2/blocksort.c:886-907 | Unless the budget runs out, all small buckets [ss,j] with j other than ss are in rotation order and flagged; the others keep their order and flags. |
| CopyScan.QueueComplete | dep/bzip2/blocksort.c:923-928 | The list that a scan extends while it reads it meets every rotation that starts with ss and follows a listed one: none is missed. |
| CopyBuckets.FilledOutcome | dep/bzip2/blocksort.c:918-946 | What the two scans write leaves every small bucket [t,ss] of an unfinished t in rotation order, [ss,ss] included, keeps each position in its bucket, and leaves all other positions as they were. |
| MainSort.CursorsMeet | dep/bzip2/blocksort.c:937-944 | After both scans the cursors of [ss,ss] meet, or ss is the only byte of the block: assertion 1007. |
| MainSort.CopyColumn | dep/bzip2/blocksort.c:909-946 | Once the small buckets [ss,j] are sorted, the two scans sort all buckets [t,ss] of unfinished t without a comparison; all of them are flagged, and what was sorted stays sorted. |
| MainSort.UpdateQuadrants | dep/bzip2/blocksort.c:987-1004 | After the quadrants of big bucket ss are set, overshoot area included, they still agree with the rotation order: of two positions with equal bytes, the one with the smaller quadrant does not come after the other. |
| MainSort.MainSort | dep/bzip2/blocksort.c:750-1011 | For every block of more than BZ_N_OVERSHOOT bytes: ptr is a permutation in any case, and if the budget is not used up it lists the rotations in non-decreasing cyclic order; the block is unchanged. |
| BlockSort.BZ2BlockSort | dep/bzip2/blocksort.c:1031-1089 | Whichever sorter is chosen and whether or not the main one gives up, ptr is the rotation order of the block, so read as strings the rotations listed never descend; origPtr is where rotation 0 is listed; the block is unchanged. |
| InverseBwt.WalkFollowsBlock | dep/bzip2/bzlib_private.h:444-449 | Following any inverse of the standard permutation of the last column from origPtr, step k stands at a rotation equal to rotation k, and the byte met is byte k of the block. |
| InverseBwt.InverseReturnsBlock | dep/bzip2/decompress.c:559-574 | For every non-empty block, every sorted order of its rotations, ties broken in any way, and periodic blocks whose permutation falls into several cycles: nblock steps from origPtr through the last column return the block. |
| InverseVectors.BuildCftab | dep/bzip2/decompress.c:494-516 | The range checks never fire on counts of a received column, and cftab holds where the bytes of each value start in the sorted column. |
| InverseVectors.BuildFast | dep/bzip2/decompress.c:557-564 | Each entry of tt ends up with its byte in the low 8 bits and the inverse permutation in the upper 24, within 32 bits. |
| InverseVectors.SetLL | dep/bzip2/bzlib_private.h:458-473 | A 20-bit link is stored in 16 bits and a nibble and read back unchanged, and no other link changes. |
| InverseVectors.CycleReversed | dep/bzip2/decompress.c:536-545 | Pointer reversal starting at origPtr has turned every link that the output will follow, even if its cycle does not cover the block. |
| InverseVectors.BuildSmall | dep/bzip2/decompress.c:524-547 | The packed links hold the inverse permutation on the whole cycle of origPtr, for every last column and every origPtr in range. |
| InverseVectors.IndexIntoF | dep/bzip2/bzlib.c:687-698 | The binary search returns the first byte of the sorted rotation indx, which is the byte the inverse permutation leads to. |
| InverseVectors.GetFast | dep/bzip2/bzlib_private.h:444-449 | Fetch number m yields byte m of the sequence that the column and origPtr determine, and is never found corrupt. |
| InverseVectors.GetSmall | dep/bzip2/bzlib_private.h:475-479 | Fetch number m yields that same byte: the SMALL form and the FAST form deliver one sequence, for every last column and every origPtr in range. |
| MtfEncoder.MakeMapsE | dep/bzip2/compress.c:105-115 | Each byte in use is numbered by how many smaller bytes are in use. |
| MtfEncoder.MakeMapsD | dep/bzip2/decompress.c:26-36 | The k-th entry is the k-th byte in use. |
| MtfEncoder.NumberedBack | dep/bzip2/decompress.c:26-36 | Numbering the bytes of a column and mapping the numbers back is the identity. |
| MtfEncoder.SetHalf | dep/bzip2/compress.c:124-157 | Writing 16-bit entry w into the storage of the 32-bit pointers changes pointer w/2 and nothing else, in both byte orders. |
| MtfEncoder.FindAndMove | dep/bzip2/compress.c:189-207 | The loop that shifts entries while it searches returns the index of the byte and moves it to the front of the list. |
| MtfEncoder.GenerateMTFValues | dep/bzip2/compress.c:119-231 | The symbols, written over the pointers still being read, are what the pointers determined before: a decoder that expands RUNA and RUNB digits and moves to front gets back the numbered last column. At most nblock + 1 symbols are written, the last is the end-of-block symbol, and mtfFreq counts them. |
| MtfSegments.InitMtf | dep/bzip2/decompress.c:358-369 | The 16 segments at the end of the 4096 cells represent the list 0 to 255. |
| MtfSegments.Repack | dep/bzip2/decompress.c:463-472 | Moving all segments to the end of the cells, in place, leaves the list they represent as it was. |
| MtfSegments.MoveToFrontAt | dep/bzip2/decompress.c:423-475 | For every position 0 to 255, the byte found is the one at that place of the plain list, and afterwards the segments represent the list with it moved to the front, disjoint and in order, with room left in front of the first one. |
| ColumnDecoder.RunNeverRejected | dep/bzip2/decompress.c:384-390 | While the symbols of an encoder for at most 900000 bytes come in, N stays below 2*1024*1024. |
| ColumnDecoder.ReadColumn | dep/bzip2/decompress.c:349-486 | For any input that is accepted, the column, in tt or ll16, is what the symbols read stand for and unzftab counts its bytes, within nblockMAX; if the symbols are those sent for a column, it is accepted, is that column, and exactly the bits sent are consumed. |
| HuffmanHeap.UpHeap | dep/bzip2/huffman.c:33-42 | A new last entry is brought to its place: the heap property holds, with the same nodes. |
| HuffmanHeap.DownHeap | dep/bzip2/huffman.c:44-59 | An entry put at the top is brought to its place: the heap property holds, with the same nodes. |
| HuffmanTree.AddWeightsMeans | dep/bzip2/huffman.c:25-31 | On words that hold a weight and a depth, ADDWEIGHTS adds the weights and makes the depth one more than the larger. |
| HuffmanTree.HeightBounded | dep/bzip2/huffman.c:100-110 | A tree that weighs at least Fibonacci number depth + 2 is at most 33 deep, so the depth field of 8 bits never overflows. |
| HuffmanDepths.DeepIsHeavy | dep/bzip2/huffman.c:114-123 | A leaf deeper than 17 means that all leaves together weigh at least 6765. |
| HuffmanDepths.KraftExact | dep/bzip2/huffman.c:114-121 | The depths of the leaves of a finished tree fill Kraft's inequality exactly. |
| HuffmanOptimal.LowerBound | dep/bzip2/huffman.c:95-112 | Whatever lengths satisfy Kraft's inequality for the roots there are at any moment, they cost no less than joining the two lightest roots again and again, and if as little then their longest is no shorter. |
| HuffmanOptimal.TreeIsOptimal | dep/bzip2/huffman.c:95-121 | The depths of the leaves of a finished tree, in which each node joined the two lightest roots, are optimal for the weights of the leaves. |
| HuffmanLengths.FlattenedWeight | dep/bzip2/huffman.c:142-146 | Rescaling lowers the total weight, or that is already at most 2 for each leaf. |
| HuffmanLengths.MakeCodeLengths | dep/bzip2/huffman.c:63-148 | For 2 to 258 symbols, any frequencies adding up to what a block can have, and any limit from 17 on: the rescaling loop terminates, every length is in 1..maxLen, and the Kraft sum is exactly 1. The frequencies, zeros taken as ones, are rescaled as often as needed and no more: for what they are then the lengths are optimal, and for all rescalings before every optimal code had a length beyond maxLen. Optimal: of all lengths that satisfy Kraft's inequality none take fewer bits, and of those that take as few none have a shorter longest code. |
| Huffman.PrefixFree | dep/bzip2/huffman.c:152-166 | For any lengths in 1..20 that satisfy Kraft's inequality no code is a prefix of another. |
| Huffman.KraftMeansFit | dep/bzip2/huffman.c:152-166 | For such lengths every code fits its length. |
| Huffman.AssignCodes | dep/bzip2/huffman.c:152-166 | The codes assigned are the canonical ones: numbered upwards by length, then by symbol. |
| Huffman.CreateDecodeTables | dep/bzip2/huffman.c:170-200 | limit, base and perm hold the last code of each length, the offset into perm, and the symbols by length, for any lengths whatever. |
| Huffman.SelectedSymbol | dep/bzip2/decompress.c:98-102 | When the bits read are within limit for their number, base and perm lead to the symbol whose code they are. |
| Huffman.DecodeSymbol | dep/bzip2/decompress.c:74-102 | A symbol is returned only if the unread bits start with its code, whatever follows, and exactly these are consumed; for lengths that satisfy Kraft's inequality nothing is returned only if the unread bits start with no code. |
| BitStream.BitWriter.Put | dep/bzip2/compress.c:58-78 | The bits written so far, in memory and in the buffer, are extended by the n bits of v, most significant first. |
| BitStream.BitWriter.Finish | dep/bzip2/compress.c:45-54 | Flushing pads with fewer than 8 zero bits and loses nothing. |
| BitStream.BitReader.TryGet | dep/bzip2/decompress.c:43-65 | Within one call: succeeds exactly if the bits held and the input at hand make up n bits, then takes the next n bits as a number and leaves the rest; otherwise moves all input at hand into the buffer, and everything is still to be read. |
| BitStream.BitReader.Get | dep/bzip2/decompress.c:43-65 | Tried again call by call with further input, for every way of cutting the input into pieces: reads the same number as without any interruption and leaves the same rest, and fails exactly if all the input together is too short, leaving everything unread. |
| CodingTables.InitialTables | dep/bzip2/compress.c:269-311 | Before the first pass every symbol is cheap in exactly one table and dear in all others; each table owns consecutive symbols, the last table first, taken until their frequencies reach the share that is left for it, less one symbol where the code takes it back: no symbol that occurs is left over. |
| BlockCoder.BestTable | dep/bzip2/compress.c:349-401 | The table selected codes the group at least as cheaply as any other, and is the first that does. |
| BlockCoder.SelectTables | dep/bzip2/compress.c:338-438 | Every group of 50 has the cheapest table selected, at most BZ_MAX_SELECTORS selectors are needed, and rfreq holds for each table how often each symbol occurs in the groups that selected it. |
| BlockCoder.MakeTables | dep/bzip2/compress.c:445-451 | All tables get lengths in 1..17 that satisfy Kraft's inequality and are the best that fit for the frequencies counted for them. |
| BlockWriter.SelectorIndices | dep/bzip2/compress.c:461-478 | Undoing move-to-front on the indices gives the selectors back. |
| SelectorReader.UndoSelectors | dep/bzip2/decompress.c:302-314 | The selectors are those whose move-to-front indices were read, and each names a table. |
| BlockReader.ReadMapping | dep/bzip2/decompress.c:267-281 | Any bits are a mapping: accepted exactly if all of it came, of which exactly its bits are consumed and all flags are clear exactly if no bit of its second level is set; the mapping of any 256 flags, whatever follows it, gives the flags. |
| SelectorReader.ReadSelectors | dep/bzip2/decompress.c:286-300 | With arrays of BZ_MAX_SELECTORS entries: a store behind the end is attempted exactly if more selectors than that are announced and enough of them come; accepted only with 2 to 6 tables, at least one selector and all indices in range; what an encoder sent is accepted and read back with exactly its bits consumed. |
| SelectorReader.SentOverruns | dep/bzip2/decompress.c:289-300 | Selectors for 2 to 6 tables, however many up to the 15 bits of the count, lead out of the arrays if and only if there are more than BZ_MAX_SELECTORS. |
| SelectorReader.TooManySelectors | dep/bzip2/decompress.c:289-300 | Such an input: 18003 times the first of two tables. |
| BlockReader.ReadTable | dep/bzip2/decompress.c:316-329 | Accepted only with all lengths in 1..20; delta-coded lengths that were sent are accepted and read back with exactly their bits consumed. |
| BlockCoder.SendMTFValues | dep/bzip2/compress.c:238-598 | What is written is exactly one encoding of the mapping, selectors, code lengths and symbols, with prefix-free tables and a selector for every group; assertions 3001 to 3007 hold. The tables are as many as the number of symbols calls for and come from four passes over the initial ones: in each, every group takes the first of the cheapest tables, and each table then gets the best lengths for the symbols of its groups; the selectors are those of the last pass. |
| SymbolReader.NextSymbol | dep/bzip2/decompress.c:74-102 | A sent sequence of symbols comes back one by one, each decoded with the table selected for its group of 50. |
| BlockDecompressor.ReadBlock | dep/bzip2/decompress.c:242-576 | The checksum returned is the 32 bits that come first; the selector arrays are overrun exactly if the fields before them are well-formed and Overruns holds for what follows; a block that was sent is read, its column, origin pointer and checksum are those sent, and the state is ready to put out its input. |
| BlockDecompressor.BlockDecodes | dep/bzip2/decompress.c:488-576 | What the last column and origin pointer of a compressed block feed to the run-length decoder expands to the input of the block and ends between two runs. |
| BlockCrc.UpdateIsDivision | dep/bzip2/bzlib_private.h:167-172 | The table-driven update equals eight steps of binary polynomial division by 0x04c11db7, where the table is what eight such steps make of each byte. |
| BlockCrc.CrcConcat | dep/bzip2/bzlib_private.h:167-172 | The checksum of two strings one after the other continues that of the first. |
| BlockCrcRemainder.BlockSumIsRemainder | dep/bzip2/bzlib_private.h:155-172 | The checksum of an input, complemented, is the remainder of the input as one number, most significant bits first, times x^32 with the first 32 bits complemented, modulo x^32 + x^26 + x^23 + x^22 + x^16 + x^12 + x^11 + x^10 + x^8 + x^7 + x^5 + x^4 + x^2 + x + 1. |
| FormatMeaning.CombinedIs | dep/bzip2/compress.c:605-608 | The combined checksum of n blocks is the exclusive-or of their checksums, that of block i rotated left n - 1 - i times. |
| FormatMeaning.MagicNumbers | dep/bzip2/compress.c:620-661 | A stream starts with BZh and the digit of its level; the magic number of a block is the first twelve digits of pi, that of the trailer the twelve digits of its square root. |
| FormatMeaning.RunIs | dep/bzip2/compress.c:173-188 | RUNA and RUNB after any other symbol stand for the number with these digits, 1 and 2 in base two, the lowest first. |
| FormatMeaning.DeltaIs | dep/bzip2/compress.c:529-539 | From one code length to the next there are as many pairs of bits as they differ, each a one and the direction, and then a zero. |
| RunLength.RunsReturn | dep/bzip2/bzlib.c:214-284 | Any runs of 1 to 255 bytes, neighbours different or full, spelled as they are stored, expand to what they stand for and end between two runs. |
| RunLengthDecoder.DState.StartOutput | dep/bzip2/decompress.c:488-576 | Refused exactly if the origin pointer is out of range; otherwise what the block still owes is the run-length expansion of the sequence its column determines. |
| RunLengthDecoder.DState.UnRleFast | dep/bzip2/bzlib.c:535-682 | For every room: puts out the next part of what is owed, as much as fits, with the checksum kept up to date; reports corruption exactly if the block stops inside a run and all that is owed fits. |
| RunLengthDecoder.DState.UnRleSmall | dep/bzip2/bzlib.c:705-804 | The same output for every room; reports corruption exactly if the block stops inside a run and room is left after all that is owed. |
| Compressor.EState.AddPair | dep/bzip2/bzlib.c:215-247 | The block grows by the stored form of the pending run, the checksum takes in all bytes of the run, and the flags set are those that were and those of the bytes stored, no others. |
| Compressor.EState.AddChar | dep/bzip2/bzlib.c:260-284 | What was consumed grows by this byte and remains what finished blocks, the block being filled and the pending run spell. |
| Compressor.EState.CopyInput | dep/bzip2/bzlib.c:288-329 | Consumed and offered input together stay the same, avail_in_expect follows avail_in while flushing or finishing, progress is reported exactly if a byte was taken, and it stops only at a full block or at the end of the input. |
| Compressor.EState.CopyOutput | dep/bzip2/bzlib.c:333-356 | The bytes of zbits are delivered once and in order, until they or the room run out. |
| Compressor.EState.CompressBlock | dep/bzip2/compress.c:602-667 | Everything consumed is then in finished blocks, of which there is one more exactly if the block was not empty, and of its size; the bits written, delivered or not, are one header, the encodings of these blocks in order, and after the last block the trailer with their combined checksum; block and zbits together fit into arr2, so no byte is written behind its end. |
| BlockSizes.BlockSize | dep/bzip2/compress.c:238-598 | The encoding of a block, with at most nblock + 1 symbols of 17 bits, 18002 selectors and 6 tables, never takes more than 21 bits for each byte of the block and a fixed number besides. |
| Compressor.EState.HandleCompress | dep/bzip2/bzlib.c:360-403 | Keeps every byte accounted for, reports progress exactly if input or room was used, returns only when the room is used up or there is nothing left to do, and closes a block that is not full only when a flush or the end has taken all input. |
| Compressor.EState.BzCompress | dep/bzip2/bzlib.c:407-464 | For every action, input and room, in any order: the invariant is kept, input is consumed and output delivered only at the end; every misuse gives the sequence error; a run to STREAM_END has delivered one header, the blocks whose inputs make up all that was consumed, one trailer, and padding. BZ_FINISH with room always makes progress. A flush returns FLUSH_OK only with its room filled and more to deliver, with room it makes progress, and RUN_OK means that all input is in finished blocks and everything but the bits held back is delivered. BZ_RUN fails exactly if nothing could be done and leaves no input while room is left. Blocks are closed when full, the last one of a flush or of the stream excepted. |
| StreamWriter.WriteBlock | dep/bzip2/compress.c:630-653 | What is written is the encoding of a block whose runs spell the input, whose checksum is that of the input, and in which exactly the bytes that occur are in use. |
| StreamReader.ExpectBytes | dep/bzip2/decompress.c:196-235 | Accepted only if exactly these bytes came, and they are always accepted. |
| Decompressor.DecompressorState.CloseBlock | dep/bzip2/bzlib.c:824-836 | A finished block is accepted exactly if its checksum is the one in its header; it then joins the checked ones, and the combined checksum takes it in. |
| Decompressor.DecompressorState.ReadTrailer | dep/bzip2/decompress.c:582-606 | The end is reported only if the combined checksum stands behind the end magic number in the input. |
| Decompressor.DecompressorState.BzDecompress | dep/bzip2/bzlib.c:808-858 | On a stream of given blocks every call succeeds, fills the buffer unless it reports the end, and reports it with exactly the inputs of the blocks put out; on any input, as long as calls succeed, the output consists of checked blocks and the beginning of one more; the selector arrays are overrun only by a block with too many selectors behind a stream header, and always if the first one does. |
| Decompressor.DecompressorState.OutputIsPrefix | dep/bzip2/bzlib.c:808-858 | At every moment the output is a prefix of the inputs of the blocks. |
| Crc32.MakeTables | dep/zlib/crc32.c:90-164 | Table k maps each byte to what 8(k+1) steps of the reflected division make of it, by the pattern that its loop builds from the exponents of the polynomial. |
| Crc32.PolyBits | dep/zlib/crc32.c:94-110 | Bit 31 - p of the pattern is set exactly for the exponents 0, 1, 2, 4, 5, 7, 8, 10, 11, 12, 16, 22, 23 and 26. |
| CrcRemainder.CrcIsRemainder | dep/zlib/crc32.c:64-86 | The checksum of any buffer, complemented and its bits reversed, is the remainder of the message polynomial times x^32, with the starting value, complemented and reversed, added to the first 32 bits, modulo the polynomial with these exponents and x^32. |
| Polynomials.RemainderUnique | dep/zlib/crc32.c:64-86 | Modulo a polynomial of degree n there is only one remainder below x^n, so this determines the checksum. |
| Crc32.CrcConcat | dep/zlib/crc32.c:204-236 | The checksum of two buffers one after the other continues that of the first. |
| Crc32.Checksum | dep/zlib/crc32.c:204-236 | The loop computes the checksum defined bit by bit. |
| Crc32.Crc32Little | dep/zlib/crc32.c:241-278 | Four bytes at a time through four tables, for every buffer, alignment and starting value: the same checksum. |
| Crc32Big.Crc32Big | dep/zlib/crc32.c:281-320 | The byte-swapped form through swapped tables: the same checksum. |
| Crc32Big.ChecksumOn | dep/zlib/crc32.c:204-236 | On a machine of either byte order, with the tables it makes, any buffer at any address: the same checksum. |
| Crc32Combine.MatrixTimes | dep/zlib/crc32.c:327-341 | Applying an operator matrix to a vector is applying the division steps the matrix stands for. |
| Crc32Combine.MatrixSquare | dep/zlib/crc32.c:344-352 | Squaring a matrix doubles the number of steps it stands for. |
| Crc32Combine.OneZeroBit | dep/zlib/crc32.c:370-377 | The first matrix stands for one step. |
| Crc32Combine.ApplyZeros | dep/zlib/crc32.c:385-404 | Alternating between two matrices, the loop over the bits of the length applies exactly 8 * len2 steps. |
| Crc32Combine.CombineIsConcat | dep/zlib/crc32.c:355-408 | Advancing the first checksum over as many zero bytes as t is long and adding the second gives the checksum of s followed by t, for all s, t and starting values. |
| Crc32Combine.CombineChecksums | dep/zlib/crc32.c:355-417 | crc32_combine of the checksums of a and b and the length of b is the checksum of a followed by b, empty b included. |
| Adler32.NoOverflow | dep/zlib/adler32.c:14-15 | Starting from any 16-bit sums, NMAX bytes never take a sum to 2^32. |
| Adler32.NMaxIsLargest | dep/zlib/adler32.c:14-15 | NMAX + 1 bytes of 255 on sums of BASE - 1 do: the constant is the largest possible. |
| Adler32.ModExact | dep/zlib/adler32.c:40-44 | MOD without division is the remainder for every 32-bit value. |
| Adler32.Mod63Exact | dep/zlib/adler32.c:45-57 | MOD63 without division is the remainder for every non-negative 63-bit value. |
| Adler32.Adler32 | dep/zlib/adler32.c:65-133 | For every buffer and every starting value the result is the checksum of section 2.2 of RFC 1950 if and only if Reduces holds, a condition on the single-byte path alone: with one byte c, old halves a and b, b + (a + c) % BASE < 2 * BASE. |
| Adler32.ChecksumsReduce | dep/zlib/adler32.c:79-87 | Every starting value whose upper half is below BASE, so every checksum, satisfies that condition. |
| Adler32.NotAlwaysReduced | dep/zlib/adler32.c:79-87 | The starting value with halves 65520 and 65535 and the byte 0 do not: subtracting BASE once is not enough. |
| Adler32.Adler32Combine | dep/zlib/adler32.c:136-162 | For any two numbers and any length below 2^63 the halves are the combined sums reduced modulo BASE if and only if CombineReduces holds, that is, if what the conditional subtractions start from is below 3 * BASE and 4 * BASE; a negative length gives all ones. |
| Adler32.ChecksumsCombine | dep/zlib/adler32.c:136-162 | Any two numbers with all halves below BASE, so any two checksums, satisfy that condition for every length. |
| Adler32.NotAlwaysCombined | dep/zlib/adler32.c:136-162 | Two numbers with lower halves of 65535 do not, for any length. |
| Adler32.CombineChecksums | dep/zlib/adler32.c:136-162 | adler32_combine of the checksums of s and t and the length of t is the checksum of s followed by t. |
| CanonicalCodes.OneCode | dep/zlib/inftrees.c:130-136 | If the lengths are not over-subscribed, at most one bit-reversed canonical code (section 3.2.2 of RFC 1951) starts any bit string. |
| CanonicalCodes.SomeCode | dep/zlib/inftrees.c:130-138 | Every bit string in the part of the code space that is taken starts with a code. |
| InflateTable.CheckLengths | dep/zlib/inftrees.c:130-138 | The result is negative exactly if the code space is exceeded, and otherwise is what remains of it. |
| InflateTable.SortSymbols | dep/zlib/inftrees.c:140-147 | work lists the symbols with a code by length, then by number. |
| InflateTable.AdvanceHuff | dep/zlib/inftrees.c:241-250 | The backwards increment turns the reversal of code c into the reversal of c + 1, or into 0 after the last code of the length. |
| InflateTable.Replicate | dep/zlib/inftrees.c:232-239 | Exactly the entries of the table whose low bits equal the code are filled. |
| TableSizing.SizeTable | dep/zlib/inftrees.c:268-276 | The look-ahead over the counts yields the size that the codes behind this root entry need, no smaller and no larger. |
| TableGrowth.GrownDecodes | dep/zlib/inftrees.c:215-290 | When the loop is over, any bits that start with a code are looked up, in the root table or through one link, to the meaning and length of that code. |
| TableGrowth.CompleteDecoder | dep/zlib/inftrees.c:215-290 | For a complete code every bit string is, so no entry is left unfilled. |
| InflateTable.InflateTable | dep/zlib/inftrees.c:32-306 | Returns -1 exactly for over-subscribed or forbidden incomplete lengths and 1 exactly if ENOUGH entries or more are needed; on 0, a root lookup and at most one sub-table lookup give, for every bit string that starts with a symbol's reversed canonical code, its operation, value and length, and an invalid code marker for every other one; no symbols at all give the two-entry table; root, the table used and the space before it are as promised. |
| DecodeTables.LengthsTile | dep/zlib/inftrees.c:60-65 | The length codes with their extra bits cover 3 to 258 without gap, each range ending where the next begins. |
| DecodeTables.DistancesTile | dep/zlib/inftrees.c:66-73 | The distance codes with their extra bits cover 1 to 32768 without gap or overlap. |
| DecodeTables.LengthForm | dep/zlib/inftrees.c:60-65 | Base and number of extra bits of each length code in the closed form of section 3.2.5 of RFC 1951: 4 codes for each number of bits, 258 on its own. |
| DecodeTables.DistanceForm | dep/zlib/inftrees.c:66-73 | Likewise of each distance code: 2 codes for each number of bits. |
| SlidingWindow.UpdateWindow | dep/zlib/inflate.c:378-426 | For every amount written, the ring still holds the last whave bytes of the whole output, at the places that wnext implies. |
| SlidingWindow.WindowByte | dep/zlib/inflate.c:1147-1152 | The byte d places back in the output is at wnext - d in the ring, or at that plus the size of the ring. |
| InflateSpec.RunMatch | dep/zlib/inflate.c:1122-1166 | Copying the first n bytes of a match in any way that repeats them byte by byte leaves the rest of the match to be done (section 3.2.3 of RFC 1951). |
| InflateSpec.LiteralMeans | dep/zlib/inflate.c:1039-1068 | If the code of a symbol below 256 comes, that byte is put out. |
| InflateSpec.EndMeans | dep/zlib/inflate.c:1039-1068 | If the code of symbol 256 comes, the block ends behind it. |
| InflateSpec.LengthMeans | dep/zlib/inflate.c:1039-1078 | If the code of symbol 257 + k comes, a distance follows, for the length that k and its extra bits stand for in closed form. |
| InflateSpec.DistanceMeans | dep/zlib/inflate.c:1079-1121 | If the code of distance symbol k comes, the distance is the one that k and its extra bits stand for in closed form. |
| InflateSpec.NoMeaning | dep/zlib/inflate.c:1060-1101 | Length symbols from 286 and distance symbols from 30 on are errors. |
| Inflate.InflateState.FetchCode | dep/zlib/inflate.c:1030-1048 | Reading byte by byte until the entry found fits into the bits held decodes the next code of the stream, fails only if the input at hand ends inside it, and never takes a whole byte too much. |
| Inflate.InflateState.StateLen | dep/zlib/inflate.c:1020-1068 | Does not change what the rest of the stream will decode to; stops only when the input at hand ends inside the code. |
| Inflate.InflateState.StateDist | dep/zlib/inflate.c:1079-1105 | Likewise for the distance code. |
| Inflate.InflateState.CopyMatch | dep/zlib/inflate.c:1122-1166 | What is copied, from the tail of the ring, its start or the output, repeats the output byte by byte; refused only if the distance is beyond the output or the window. |
| Inflate.InflateState.FastCode | dep/zlib/inffast.c:121-132 | The lookup of the fast loop consumes the same code as the slow one. |
| Inflate.InflateState.FastTurn | dep/zlib/inffast.c:118-307 | With 6 bytes of input and 258 of room, one turn needs no further check, does not run out of either, and does not change what the stream will decode to. |
| Inflate.InflateState.ReturnBytes | dep/zlib/inffast.c:309-313 | Giving back unused bytes leaves fewer than 8 bits and the same unread stream. |
| Inflate.InflateState.InflateFast | dep/zlib/inffast.c:67-324 | The same output, mode and position as the states LEN to MATCH one by one: what the stream will decode to is unchanged, and it stops in LEN only for want of input or room. |
| Inflate.InflateState.Inflate | dep/zlib/inflate.c:1020-1243 | For every chunk of input and every buffer: what is put into the buffer continues the output, window and state are ready for the next call, and what the unread input and any continuation of it decode to is unchanged; it stops with room left only at the end of the block, at an error, or if the data so far decodes no further. |
| InflateBlock.DecodeBlock | dep/zlib/inflate.c:993-1172 | From code lengths to output, over all splits of input and of output space: refused exactly if inflate_table refuses one of the sets; otherwise the output is what the data means, complete at the end of the block or up to the error, and a prefix of it while more is to come; with room left, all that the input determines. The only exception: it may stop with an error at a match that reaches back further than the window but not further than the output, having put out what the data means up to there; with a window of 32K there is none. |
| InflateBlock.NothingFar | dep/zlib/inflate.c:1079-1121 | With a window of 32K no match can reach beyond it: the base and extra bits of every distance code stay within 32768. |
| HashKeys.RolledKey | dep/zlib/deflate.c:167-167 | The rolling update yields the hash of the three bytes alone, whatever came before them. |
| HashKeys.KeyDecides | dep/zlib/deflate.c:1245-1252 | With at least 8 hash bits, equal hashes and two equal bytes make the third byte equal, wherever it stands in the string: scan[2] need not be compared. |
| HashChains.Insert | dep/zlib/deflate.c:181-189 | Entering a string keeps every link what it is for: from each string in the dictionary it leads to the latest one before with the same hash, and each head to the latest of all, unless that is older than what prev covers; the string entered becomes the latest with its hash. |
| HashChains.Slide | dep/zlib/deflate.c:1424-1447 | Lowering all positions by the window size when the window slides keeps that. |
| HashChains.LinkIsRecent | dep/zlib/deflate.c:1278-1279 | Following links above the limit goes through the strings of the dictionary with the same hash, latest first, leaving out none. |
| MatchSearch.UnseenBytes | dep/zlib/deflate.c:1194-1204 | Two windows that agree as far as there is data: the best match among any candidates, cut to lookahead, is the same, and so is where it starts if lookahead exceeds the previous length. |
| Deflate.DeflateState.LongestMatch | dep/zlib/deflate.c:1146-1287 | Of the strings in the dictionary with the hash of the current one, latest first, within MAX_DIST and at most max_chain of them (a quarter of that if prev_length reaches good_match), up to the first that improves on prev_length and reaches nice_match: the result is the furthest that any agrees with the current string, or prev_length, cut to lookahead, and match_start is the first that agrees as far. It never exceeds lookahead or 258, and what it claims is a true match. |
| Deflate.DeflateState.SlideWindow | dep/zlib/deflate.c:1414-1449 | Moving the upper half down and the tables with it keeps the data held, the chains, the running hash and the match that is pending; exactly the strings of the lower half leave the dictionary. |
| Deflate.DeflateState.FillWindow | dep/zlib/deflate.c:1388-1530 | Keeps the whole invariant; takes input in order, and stops with less than MIN_LOOKAHEAD only if there is none left; the next MIN_LOOKAHEAD bytes of the window may then be read. The strings left over before are entered as far as they are complete, and nothing else is done. |
| Deflate.DeflateState.Step | dep/zlib/deflate.c:1750-1835 | One turn of the lazy search. It finds the longest match in the dictionary unless the earlier one reaches max_lazy, dropping matches of at most 5 when filtered and of 3 beyond TOO_FAR; an earlier match of at least 3 that is not beaten is emitted as a copy and passed over, else the waiting byte as a literal, and what was found waits; exactly the strings passed are entered. The invariant is kept: symbols are literals or true matches within MAX_DIST, and expand to the data before the pending literal. |
| Deflate.DeflateState.UnseenMakesNoDifference | dep/zlib/deflate.c:1194-1204 | Whatever the window holds beyond the data, a turn emits the same symbol and leaves the same match waiting. |
| Deflate.DeflateState.EndBlock | dep/zlib/deflate.c:1837-1850 | The pending literal, if there is one, is emitted; then the symbols expand to all data read. |
| Deflate.DeflateState.DeflateSlow | dep/zlib/deflate.c:1728-1851 | Takes input in order; unless it needs more input or space, all input is taken and told by the symbols; it ends as the flush mode says, and starves only if output space does or nothing was to be flushed. The symbols are those of turns as Step describes them, interrupted only by filling the window and the last literal (Narrated), and each turn has MIN_LOOKAHEAD bytes ahead or, when flushing, all the input there is. |
| Deflate.DeflateState.Deflate | dep/zlib/deflate.c:895-943 | One call with a full flush included, which forgets the history: the same for the input of this call, and the stream is finished exactly when the flush mode is FINISH and it was completed. |
| Deflate.DeflateAll | dep/zlib/deflate.c:663-974 | From lm_init through any sequence of calls: at every moment the symbols are sound, copies of 3 to 258 bytes from at most MAX_DIST back, and expand to a prefix of the input read; when the stream is finished they expand to exactly all input offered, and without lack of space a sequence that ends in FINISH finishes. At every moment they are also the symbols of turns as Step describes them, each with the dictionary, the data and the earlier match that the turns before have led to (Narrated). |
| LzSymbols.SymbolInflates | dep/zlib/inflate.c:1122-1172 | What inflate makes of such a symbol, with a window at least as large as the distances, is what the symbol stands for. |

## Left out

- The command-line tools, the FILE-based and the buffer-to-buffer wrappers, allocation, version and argument checks,
  byte totals and progress messages of both libraries.
- `deflate`'s block emission: trees.c is not part of this model. The symbols in d_buf and l_buf are the result, and the
  Freq counters beside them are omitted; `avail_out` appears as a parameter that says when output space has run out.
- `deflate_stored`, `deflate_fast`, `deflate_rle`, `deflate_huff`, `deflateParams`, preset dictionaries, the
  UNALIGNED_OK, FASTEST and 16-bit-int variants, the early returns of `deflate()` on pending output and on repeated
  flushes, and the stream checksum that `read_buf` updates. The configuration table is a set of parameters, with
  max_chain at least 4 as `dep/zlib/deflate.c:146` requires; `match_start` is an integer that may be negative after a
  slide.
- `inflate` outside the states LEN to LIT: headers, stored blocks, reading the dynamic header, the check that symbol
  256 has a code, the trailer, `inflateSync`, `infback.c`. INFLATE_STRICT and INFLATE_ALLOW_INVALID_DISTANCE_TOOFAR_ARRR
  are off, the fields `back` and `was` are omitted, tables are sequences once built, and the window is allocated from
  the start.
- The blockRandomised path of decompression, which no encoder since 0.9.5 uses: such a block is refused, whatever
  selectors it has.
- Decompressor.DecompressorState.BzDecompress: a call that runs out of input goes on with the next piece instead of
  returning BZ_OK. Taking up an interrupted GET_BITS again is modelled (`BitStream.BitReader.Get`); that the local
  variables which the code copies to the save_ fields and back are the same afterwards is taken for granted.
- RoundTrip.DecompressAny: stops at the first error. Calls after one are outside the model: on a wrong block checksum
  the code complements it in place, so a second call compares the complement.
- MainQuickSort.MainSimpleSort, MainQuickSort.MainQSort3 and MainSort.MainSort: how much budget is used is not stated,
  only that running out is reported and leaves a permutation.
- Deflate.DeflateAll: how many bytes are ahead when a turn is taken is stated for each call
  (`Deflate.DeflateState.Deflate`), not again for the sequence of calls.
- Storage that the code shares: `eclass` with the block is kept as an assignment that leaves the block unknown, and the
  symbols with the pointers in both byte orders. The quadrants, which lie behind the block in arr2, are an array of
  their own, and zbits, which lies there later, is a sequence whose room in arr2 is proved to be enough
  (`Compressor.EState.CompressBlock`). The block being filled is a sequence too, and work arrays are allocated per block
  at their exact size.
- Loops unrolled in the code are single loops here: the comparisons of `mainGtU`, the three copies in `mainSimpleSort`,
  the radix passes, the groups of 50 symbols, the copies of `inflate_fast` and `longest_match`, DO8, DO16 and DOLIT32.
  The two partition scans are one method on keys, and a goto into the middle of a loop is a flag at its start.
- CRC tables given as literals are defined by the function that generates them.
- Members for sequences, counting and arithmetic that the table does not list are steps of the proofs.
