# bzip2 codec and zlib checksums in Dafny

A model of the bzip2 1.0.6 codec under `Core-Deprecated/dep/bzip2` and of the two
zlib checksums under `Core-Deprecated/dep/zlib`, with proofs. Each stage has a
specification over sequences; the code's own representation of it, arrays and
objects updated in place, is proved to refine that specification; and the stage
lemmas compose to statements about the whole program: `Codec.CompressDecompress`
and, for every way of calling it, `Codec.RoundTrip`.

How the parts fit together:

- **Rle**, **FastOutput**, **SmallOutput**, **UnRle**: the first-stage run-length
  code, its encoder with a pending run carried from block to block, and the two
  decoding loops that can be suspended before any output byte.
- **Rotation**, **FallbackQSort**, **Buckets**, **FallbackSort**: the block sort by
  prefix doubling. **MainCompare**, **MainQSort**, **MainRadix**, **RunningOrder**,
  **MainScan**, **MainSort**: the main sorter, with its comparator and quadrant
  cache, its bucket sorts, the scan that synthesises most buckets, and a bound on the
  work charged for.
- **InverseBwt**, **FastInverse**, **SmallInverse**: the inverse transform as a
  packed vector and as split links with pointer reversal on one cycle.
- **Mtf**, **MtfEncoder**, **MtfDecoder**, **ValueDecoder**, **ValueCode**: move to
  front with bijective base-2 runs; the encoder overwrites its own input, the decoder
  keeps a sliding two-level list and takes each value as it is read.
- **Counting**, **Huffman**, **Heap**, **HuffmanCost**, **HuffmanTree**, **CodeLengths**:
  canonical codes, their decoding tables, and the construction of length-limited codes,
  optimal for the weights in force.
- **BitSeq**, **BitStream**, **Coroutine**: bits, the writer with residual bits,
  the reader that can stop at any request.
- **BlockFormat**, **BlockCode**, **BlockWriter**, **BlockEncoder**: a block on the
  wire.
- **DecoderStates**, **BlockReader**, **StreamDecoder**: BZ2_decompress as a machine
  that stops at every bit request, what each of its states means for the rest of the
  stream, and the object whose fields hold the state.
- **Words**, **BlockCrc**: 32-bit words and their bits; the block CRC and how block CRCs
  are combined.
- **Stream**, **StreamSamples**, **Compressor**, **Decompressor**, **Codec**: the stream,
  two streams given byte by byte, the
  compressor's mode machine, the decompressor fed in chunks, and both together.
- **Adler32**, **Crc32**: delayed-modulo Adler-32 and its combination; CRC-32 by
  tables, four bytes at a time, and its combination by GF(2) matrices. The
  references are section 2.2 of RFC 1950 and section 8 of RFC 1952.

Where comments in the code and the code disagree, the model follows the code:
the comment in `generateMTFValues` promises at most nblock values, the code writes
up to nblock + 1 (compress.c:135-140, 228); the comment on quadrants promises that
a smaller one means a smaller rotation, but among equal rotations it only means one
that is not larger (blocksort.c:964-985); and the note on NMAX assumes reduced
halves, while the first stretch starts from unreduced ones, which fit as well
(adler32.c:15-16). `adler32` on a single byte reduces its second sum only once, so
it is exact precisely under `Adler32.ReducedOnce`; `adler32_combine_` is exact
precisely for sums in `Adler32.InReach`.

One thing the code does not do is check the number of selectors against its arrays:
BZ2_decompress reads a 15-bit count, requires it to be positive, and stores every
selector into arrays of 18002 (decompress.c:289-300, bzlib_private.h:125, 402-403).
The model stores into arrays of that length and reports a store past the end as an
outcome of its own; `BlockCode.SelectorsInBounds` says exactly when it happens,
`BlockCode.OneSelectorTooMany` gives an input, and `BlockEncoder.SelectorsFit` shows
that the encoder stays below.

Integers are unbounded unless a width matters: the bit buffers are explicit modulo
2^32, Adler sums use a 32-bit type in which overflow would be an error, CRCs are
32-bit vectors, links are split into 16 and 4 bits. The application's buffers and
chunks, the addresses of buffers and the table heuristics are parameters.

## Model

| member | source | states |
|---|---|---|
| Codec.CompressDecompress | Core-Deprecated/dep/bzip2/bzlib.c:407-464 | total correctness: for every byte string, block size, work factor, table heuristic, decoder, buffer sizes, and every way of cutting the compressed bytes into chunks, compressing ends and decompressing returns the byte string |
| Codec.DecompressBeginning | Core-Deprecated/dep/bzip2/bzlib.c:807-860 | any beginning of the compressed bytes, in any chunks, is never taken for corrupt, and what has been put out when the input runs out is a beginning of the data |
| Codec.CompressAll | Core-Deprecated/dep/bzip2/bzlib.c:454-463 | repeated FINISH calls with room always reach the end of the stream, having consumed all the data |
| Codec.RoundTrip | Core-Deprecated/dep/bzip2/bzlib.c:407-464 | for every data, every sequence of RUN/FLUSH/FINISH calls with any buffer sizes, every work factor and table heuristic, either decoder, any chunks of compressed input and any output buffers: once the stream has ended, decompressing it returns exactly the bytes consumed, with no error |
| Codec.Session | Core-Deprecated/dep/bzip2/bzlib.c:407-464 | any run of compressor calls consumes a prefix of the data; when the stream ends its output decodes to exactly that prefix |
| Stream.StreamRoundTrip | Core-Deprecated/dep/bzip2/compress.c:602-667 | header, any blocks (any sorted rotation order, any tables and selectors) and trailer decode to the concatenated inputs: no data error, block CRCs and combined CRC agree, what follows is left over |
| Stream.PacketDecodes | Core-Deprecated/dep/bzip2/decompress.c:266-578 | one block: parsing returns CRC, starting row and last column, and inverse transform plus run decoding returns the block's input; neither the run check nor the CRC check fires |
| Stream.BlocksDecode | Core-Deprecated/dep/bzip2/bzlib.c:819-850 | the block loop with its running combined CRC decodes the blocks from the k-th on and accepts the trailer |
| StreamSamples.EmptyStream | Core-Deprecated/dep/bzip2/compress.c:652-663 | the fourteen bytes 42 5a 68 39 17 72 45 38 50 90 00 00 00 00 decode to no bytes |
| StreamSamples.TwoBlockStream | Core-Deprecated/dep/bzip2/decompress.c:217-605 | the 59 bytes of a stream of two blocks, with the stored block and combined CRCs, decode to the bytes 61 62 |
| Decompressor.Decompress | Core-Deprecated/dep/bzip2/bzlib.c:807-860 | fed any sequence of chunks, the decompressor comes to what the stream specification says of their concatenation: the output, a wish for more input, a data error or a store past the selector arrays; while it wishes for more input, the output so far begins the output of every continuation (randomised blocks count as data errors) |
| Decompressor.DStream.Supply | Core-Deprecated/dep/bzip2/bzlib.c:807-860 | one call: after any chunk the status and the output so far are right for the whole stream whatever input follows; nothing is lost between calls |
| Decompressor.PutOut | Core-Deprecated/dep/bzip2/bzlib.c:819-840 | a block that is ready is put out with its CRC combined, or found corrupt exactly when its run-length code breaks off or its CRC is not the stored one |
| Decompressor.OutputFast | Core-Deprecated/dep/bzip2/decompress.c:557-576 | for every column and every division of the output into buffers: corrupt exactly when the run-length code breaks off, otherwise the expansion and its CRC |
| Decompressor.OutputSmall | Core-Deprecated/dep/bzip2/decompress.c:524-556 | the low-memory transform satisfies the same contract as the fast one |
| Compressor.EState.Compress | Core-Deprecated/dep/bzip2/bzlib.c:407-464 | exactly what each call answers and leaves: SequenceError with nothing changed if and only if the call is refused (idle, another request pending, or avail_in changed) or a finish call moves nothing; RUN runs until the room or the input is used up and returns RunOk if anything moved, otherwise ParamError; FLUSH and FINISH return RunOk and StreamEnd exactly when everything is drained, otherwise FlushOk and FinishOk with no room left; new blocks are full except the last of a flush or finish; the input taken is a prefix, the output grows by what the room shrinks; at the end of the stream the output decodes to everything consumed; a finish call with room ends the stream or comes strictly closer to its end |
| Compressor.EState.HandleCompress | Core-Deprecated/dep/bzip2/bzlib.c:361-403 | terminates, reports progress exactly when it consumed or produced something, and stops only for lack of room, lack of input or at the end of the request |
| Compressor.EState.CompressBlock | Core-Deprecated/dep/bzip2/compress.c:602-667 | the current block joins the stream exactly once, after the header and before the trailer; an output state without pending run arises only at the end of a flush or finish |
| Compressor.EState.CopyInput | Core-Deprecated/dep/bzip2/bzlib.c:288-331 | takes input until the block is full or the input ends, in step with avail_in_expect |
| Compressor.EState.CopyOutput | Core-Deprecated/dep/bzip2/bzlib.c:333-357 | delivers waiting bytes in order until the room or the block ends |
| Compressor.EState.PrepareNewBlock | Core-Deprecated/dep/bzip2/bzlib.c:116-127 | empties the block and the byte buffer but keeps pending run and residual bits |
| Compressor.EState.Begin | Core-Deprecated/dep/bzip2/bzlib.c:424-435 | a flush or finish request fixes the input still expected and changes the mode |
| Compressor.EState.End | Core-Deprecated/dep/bzip2/bzlib.c:440-460 | a completed flush returns to running with an empty block; a completed finish goes idle with the trailer drained |
| Compressor.EState.WriteTrailer | Core-Deprecated/dep/bzip2/compress.c:652-666 | trailer and padding complete the stream to whole bytes |
| Compressor.BlocksSnoc | Core-Deprecated/dep/bzip2/compress.c:625-650 | appending a block appends its bits |
| BlockCrc.CombineBits | Core-Deprecated/dep/bzip2/compress.c:607-608 | bit j of the combined CRC is bit j - 1 of the old one, taken cyclically, exclusive-or that of the block CRC |
| BlockCrc.CombineWords | Core-Deprecated/dep/bzip2/bzlib.c:832-835 | the same of the 32 bits as they are transmitted: moved one place up cyclically and added |
| BlockCrc.CombinedBits | Core-Deprecated/dep/bzip2/bzlib.c:832-835 | for n blocks, bit j is the exclusive-or over k of bit (j - (n - 1 - k)) mod 32 of the k-th block CRC |
| BlockCrc.WordInjective | Core-Deprecated/dep/bzip2/decompress.c:596-599 | words equal as numbers are equal CRCs, so no difference goes unnoticed in the comparison |
| Rle.ExpandPair | Core-Deprecated/dep/bzip2/bzlib.c:216-246 | a run's code expands to the run and leaves the decoder ready for any other byte, and after a count for the same byte |
| Rle.AppendPair | Core-Deprecated/dep/bzip2/bzlib.c:216-246 | appending a run to a block appends its bytes to the block's expansion |
| Rle.Encoder.AddPair | Core-Deprecated/dep/bzip2/bzlib.c:216-246 | the pending run joins the block: code, expansion, bytes in use and CRC |
| Rle.Encoder.AddChar | Core-Deprecated/dep/bzip2/bzlib.c:260-284 | coded bytes followed by the pending run grow by exactly the new byte, runs split at 255, and nblock stays below nblockMAX + 5 |
| Rle.Encoder.Flush | Core-Deprecated/dep/bzip2/bzlib.c:250-255 | everything pending is coded; the block grows by at most five bytes, so nblock is at most 100000 * blockSize100k - 10 |
| Rle.LongRun | Core-Deprecated/dep/bzip2/bzlib.c:658-660 | four equal bytes and a count expand to the whole run, after which decoding starts afresh |
| Rle.ShortRun | Core-Deprecated/dep/bzip2/bzlib.c:640-656 | one to three equal bytes followed by another byte carry no count |
| FastOutput.Output.UnRleFast | Core-Deprecated/dep/bzip2/bzlib.c:589-682 | suspended before any byte and resumed, puts out exactly the next bytes of the block's total output, keeps the CRC of what went out, finishes exactly at the end of a whole code, and reports corruption once the rest of a broken one has gone out |
| SmallOutput.Output.UnRleSmall | Core-Deprecated/dep/bzip2/bzlib.c:759-803 | puts out the same bytes under the same contract, but reports corruption only with room to spare |
| FastOutput.Output.StartRun | Core-Deprecated/dep/bzip2/bzlib.c:640-660 | the next run is recognised, singles apart, with the byte after it fetched |
| SmallOutput.Output.StartRun | Core-Deprecated/dep/bzip2/bzlib.c:779-801 | the next run is recognised with its length |
| UnRle.TotalIsExpansion | Core-Deprecated/dep/bzip2/bzlib.c:589-682 | a whole code's total output is its expansion |
| UnRle.ShortStep | Core-Deprecated/dep/bzip2/bzlib.c:640-656 | a run of up to three is owed and decoding goes on behind it |
| UnRle.LongStep | Core-Deprecated/dep/bzip2/bzlib.c:658-660 | a run of four with its count, or with the byte after the block when the code breaks off, is owed |
| UnRle.MidwayEnds | Core-Deprecated/dep/bzip2/bzlib.c:632-639 | nothing is left exactly at the end of the code; nblock_used tells a whole code from a broken one |
| Rotation.CmpIsLexicographic | Core-Deprecated/dep/bzip2/blocksort.c:212-329 | the comparison used throughout is the lexicographic order of cyclic rotations |
| Rotation.SortedUnique | Core-Deprecated/dep/bzip2/blocksort.c:1059-1062 | any two sorted orders agree position by position up to equal rotations |
| InverseBwt.LastColumnUnique | Core-Deprecated/dep/bzip2/blocksort.c:1031-1092 | the transformed column does not depend on the sorter: it is the same for any two sorted orders |
| InverseBwt.WalkRecoversBlock | Core-Deprecated/dep/bzip2/decompress.c:500-573 | for every sorted rotation order, with ties in any order, and ptr[origPtr] = 0, the inverse walk fetches the block byte by byte |
| InverseBwt.StepAdvances | Core-Deprecated/dep/bzip2/decompress.c:559-565 | one step of the inverse permutation leads to the next rotation of the same string class |
| FastInverse.CumulateCounts | Core-Deprecated/dep/bzip2/decompress.c:494-516 | starting positions are the numbers of smaller bytes; none of the range and order checks can fire |
| FastInverse.BuildLinks | Core-Deprecated/dep/bzip2/decompress.c:559-564 | tt holds each column byte and, above it, the inverse permutation |
| FastInverse.Walk.Get | Core-Deprecated/dep/bzip2/bzlib_private.h:444-456 | each fetch yields the next byte of the inverse walk; its range check never fires |
| SmallInverse.SetLL | Core-Deprecated/dep/bzip2/bzlib_private.h:458-473 | 20-bit links in 16 + 4 bits: the written link reads back and its neighbours are unchanged |
| SmallInverse.BuildForwardLinks | Core-Deprecated/dep/bzip2/decompress.c:526-535 | the split array holds the forward permutation |
| SmallInverse.ReverseCycle | Core-Deprecated/dep/bzip2/decompress.c:537-546 | pointer reversal terminates and inverts exactly the cycle through origPtr, whatever other cycles there are |
| SmallInverse.IndexIntoF | Core-Deprecated/dep/bzip2/bzlib.c:687-698 | the binary search finds the byte whose range of the first column holds the row |
| SmallInverse.Walk.Get | Core-Deprecated/dep/bzip2/bzlib_private.h:475-479 | each fetch yields the same byte as the fast walk |
| FallbackSort.Sort | Core-Deprecated/dep/bzip2/blocksort.c:212-329 | terminates for every block with fmap the rotations in order and the block restored |
| FallbackSort.RefineBuckets | Core-Deprecated/dep/bzip2/blocksort.c:273-306 | one round: buckets equal on H bytes, in order, become buckets equal on 2H bytes, in order |
| FallbackSort.RadixSort | Core-Deprecated/dep/bzip2/blocksort.c:236-241 | positions are placed by their first byte |
| FallbackSort.AssignClasses | Core-Deprecated/dep/bzip2/blocksort.c:266-271 | every rotation is classed by the bucket of the rotation H bytes further on |
| FallbackSort.MarkEdges | Core-Deprecated/dep/bzip2/blocksort.c:299-304 | header bits appear exactly where the class changes |
| FallbackSort.SkipSet | Core-Deprecated/dep/bzip2/blocksort.c:273-278 | the scan, whole words at a time, stops at the first clear bit |
| FallbackSort.Reconstruct | Core-Deprecated/dep/bzip2/blocksort.c:315-328 | the block bytes are restored from the byte counts and the order |
| FallbackSort.FindOrigin | Core-Deprecated/dep/bzip2/blocksort.c:1083-1088 | origPtr is the row of rotation 0; AssertH 1003 never fires |
| Buckets.BucketRefined | Core-Deprecated/dep/bzip2/blocksort.c:294-304 | sorting a bucket by class orders it on twice the depth |
| FallbackQSort.QSort3 | Core-Deprecated/dep/bzip2/blocksort.c:93-180 | sorts its range by class, permutes nothing else, terminates, and the stack stays below its limit (AssertH 1004) |
| FallbackQSort.SimpleSort | Core-Deprecated/dep/bzip2/blocksort.c:32-59 | sorts its range by class and permutes nothing else |
| FallbackQSort.Partition | Core-Deprecated/dep/bzip2/blocksort.c:132-170 | splits the range into smaller, equal and larger keys; the middle is never empty |
| FallbackQSort.StackRoom | Core-Deprecated/dep/bzip2/blocksort.c:109-111 | halving sizes keep the stack logarithmic |
| MainCompare.GtU | Core-Deprecated/dep/bzip2/blocksort.c:347-469 | a weak comparison of two rotations from up to fifteen bytes in: true only if the first is not smaller, false only if it is not larger, given the quadrant invariant; the budget falls by exactly the number of rounds of eight positions, after the first twelve bytes, that differ neither in bytes nor in quadrants, up to (nblock + 8) / 8 + 1 |
| MainCompare.ChargeLimited | Core-Deprecated/dep/bzip2/blocksort.c:464-464 | comparing two different rotations, from however many bytes in, takes at most r rounds if no two different rotations agree on 20 + 8r bytes |
| MainCompare.FreeOfCharge | Core-Deprecated/dep/bzip2/blocksort.c:365-410 | if no two different rotations agree on h bytes, for some h up to twenty, no comparison is charged for |
| MainCompare.ReadsTrue | Core-Deprecated/dep/bzip2/blocksort.c:794-798 | every index below nblock + BZ_N_OVERSHOOT reads a true cyclic copy of block and quadrant |
| MainCompare.QuadrantDecides | Core-Deprecated/dep/bzip2/blocksort.c:964-985 | a smaller quadrant after m common bytes means a rotation that is not larger |
| MainCompare.UpdateQuadrants | Core-Deprecated/dep/bzip2/blocksort.c:987-1004 | recording a sorted big bucket re-establishes the quadrant invariant, overshoot copies included, with quadrants below 65536 (AssertH 1002) |
| MainQSort.Insert | Core-Deprecated/dep/bzip2/blocksort.c:508-522 | an insertion permutes only the range, at stride one extends the ordered part, and compares different rotations only, each entry with those before it at most once |
| MainQSort.SimpleSort | Core-Deprecated/dep/bzip2/blocksort.c:485-554 | permutes only its range; in rotation order unless the budget ran out; charged for at most thirteen comparisons of each pair of entries |
| MainQSort.QSort3Main | Core-Deprecated/dep/bzip2/blocksort.c:621-717 | permutes only its range, terminates, never overflows its stack (AssertH 1001), and leaves the range in rotation order unless the budget ran out; all its simple sorts together are charged for at most thirteen comparisons of each pair of entries |
| MainQSort.LoadSplit | Core-Deprecated/dep/bzip2/blocksort.c:694-716 | replacing a range by its three parts never adds to the comparisons still to come |
| MainQSort.Med3 | Core-Deprecated/dep/bzip2/blocksort.c:583-592 | a median: one of the three, with at least two of them on either side |
| MainQSort.RoomLeft | Core-Deprecated/dep/bzip2/blocksort.c:641-643 | sizes that halve with every two levels keep the stack below its limit |
| MainRadix.RadixSort | Core-Deprecated/dep/bzip2/blocksort.c:769-830 | positions by their first two bytes, ftab the start of every small bucket, quadrants cleared and the overshoot copied |
| MainRadix.BucketKey | Core-Deprecated/dep/bzip2/blocksort.c:802-836 | what stands between two entries of ftab is the small bucket of those two bytes |
| RunningOrder.Order | Core-Deprecated/dep/bzip2/blocksort.c:833-860 | the shell sort lists every big bucket once, from the least full to the fullest |
| MainScan.GrownKnown | Core-Deprecated/dep/bzip2/blocksort.c:918-935 | a big bucket being completed while it is scanned: all that is known of it is in order, without repetition, and begins with what has been scanned |
| MainScan.SideScanned | Core-Deprecated/dep/bzip2/blocksort.c:918-935 | when the scan has caught up, every rotation whose run of ss ends in a smaller byte (a larger one, from the other end) has been scanned |
| MainScan.Room | Core-Deprecated/dep/bzip2/blocksort.c:918-935 | predecessors written from the two ends never overrun their small bucket |
| MainScan.FullOrdered | Core-Deprecated/dep/bzip2/blocksort.c:918-935 | a small bucket filled from both ends is in rotation order |
| MainScan.ScanDone | Core-Deprecated/dep/bzip2/blocksort.c:911-935 | the pointers are a permutation by small buckets again, all buckets [t, ss] not done before are in order, all others untouched |
| MainScan.ScansMeet | Core-Deprecated/dep/bzip2/blocksort.c:937-944 | the two scans of the bucket itself meet, or the block is constant (AssertH 1007) |
| MainScan.ScanBigBucket | Core-Deprecated/dep/bzip2/blocksort.c:911-944 | step 2 in place: every read is of an entry already known, every write inside its bucket, and all buckets [t, ss] come out in order |
| MainSort.CompleteBigBucket | Core-Deprecated/dep/bzip2/blocksort.c:878-907 | step 1 sorts and marks every bucket [ss, j] with j != ss that is not marked, and disturbs no other, unless the budget runs out; the charge is bounded by the size of the big bucket |
| MainSort.AfterScan | Core-Deprecated/dep/bzip2/blocksort.c:946-946 | after step 2 all buckets [t, ss] may be marked, and all marks are true |
| MainSort.BigBucketDone | Core-Deprecated/dep/bzip2/blocksort.c:987-1004 | a big bucket that is done is in order as a whole, so its order may be recorded in the quadrants |
| MainSort.SortBigBucket | Core-Deprecated/dep/bzip2/blocksort.c:868-1006 | one big bucket: steps 1 to 3 keep the marks true and the workspace valid; only a bucket not done before is taken (AssertH 1006) |
| MainSort.Sort | Core-Deprecated/dep/bzip2/blocksort.c:751-1011 | mainSort ends with all rotations in order and the block unchanged, unless the budget ran out; it takes from the budget at most 13 n (n - 1) / 2 times the most rounds any two different rotations of the block are tied for: nothing at all, and so it always sorts, if no two different rotations agree on twenty bytes, and for every block at most 13 n (n - 1) / 2 times (n + 8) / 8 + 1, so a larger budget never runs out |
| MainSort.WaitingWhole | Core-Deprecated/dep/bzip2/blocksort.c:868-907 | sorting the big buckets one by one costs no more than sorting all positions at once |
| Mtf.RunCodeDecodes | Core-Deprecated/dep/bzip2/compress.c:174-188 | decoding a run's digits gives its length; there are no more digits than zeros |
| Mtf.RunValueEncodes | Core-Deprecated/dep/bzip2/decompress.c:379-397 | every digit string is the code of its value: the numerals are bijective |
| Mtf.DecodeEncode | Core-Deprecated/dep/bzip2/compress.c:163-228 | decoding what the encoder generates returns the column, for every column that fits a block |
| Mtf.DecodeWithin | Core-Deprecated/dep/bzip2/decompress.c:417-481 | values up to nInUse reach only the alphabet, so stale map entries are never read |
| Mtf.MakeMaps | Core-Deprecated/dep/bzip2/compress.c:105-115 | the two byte maps are inverse to each other and list the bytes in use in order |
| MtfEncoder.GenerateMtfValues | Core-Deprecated/dep/bzip2/compress.c:119-231 | although values overwrite the pointers being read, the result is the MTF code of the last column and the end value; nMTF is at most nblock + 1 and the frequencies count the values |
| MtfEncoder.PointersSpared | Core-Deprecated/dep/bzip2/compress.c:163-209 | writing values up to index i spares every later pointer |
| MtfEncoder.PutRun | Core-Deprecated/dep/bzip2/compress.c:174-188 | writes the digits of a run and counts them |
| MtfEncoder.MoveToFront | Core-Deprecated/dep/bzip2/compress.c:189-205 | the in-place shift finds the symbol's position and moves it to the front |
| MtfDecoder.List.constructor | Core-Deprecated/dep/bzip2/decompress.c:358-370 | the arena starts as the identity list at its top |
| MtfDecoder.List.Move | Core-Deprecated/dep/bzip2/decompress.c:423-475 | any move, in the first row or across rows, refines the flat move to front; rows stay disjoint and inside the arena |
| MtfDecoder.List.MoveInFirstRow | Core-Deprecated/dep/bzip2/decompress.c:429-444 | a short move shifts within the first row |
| MtfDecoder.List.MoveAcrossRows | Core-Deprecated/dep/bzip2/decompress.c:445-462 | a general move lowers the first row by one and hands an element down from row to row |
| MtfDecoder.List.Compact | Core-Deprecated/dep/bzip2/decompress.c:463-472 | sliding all rows back to the top over possibly unread storage keeps the list |
| MtfDecoder.RepresentsUnique | Core-Deprecated/dep/bzip2/decompress.c:423-475 | an arena stands for one list only |
| ValueDecoder.TakeAllDecodes | Core-Deprecated/dep/bzip2/decompress.c:372-486 | taking the values one by one, runs ended by whatever follows them, comes to the decoding of the whole list, refusals included: for every list of values |
| ValueDecoder.Column.TakeValue | Core-Deprecated/dep/bzip2/decompress.c:375-486 | one value as it is read: the column, its byte counts, the list and the run after it are the specification's, and a data error is reported exactly when it refuses the value |
| ValueDecoder.Column.EndRun | Core-Deprecated/dep/bzip2/decompress.c:396-416 | the end of a run stores its bytes, or is refused exactly when they overrun the block |
| ValueCode.SymsDecode | Core-Deprecated/dep/bzip2/decompress.c:372-486 | where all values of a block can be read, reading and decoding them one by one is reading them all and decoding the list |
| ValueCode.SymsWithin | Core-Deprecated/dep/bzip2/decompress.c:417-481 | whatever is read, the symbols stay in the alphabet and within the room |
| Huffman.EndIsKraft | Core-Deprecated/dep/bzip2/huffman.c:152-166 | where the codes of the longest length stop is the Kraft sum |
| Huffman.PrefixFree | Core-Deprecated/dep/bzip2/huffman.c:152-166 | no code is a prefix of another, for every length vector with Kraft sum at most one |
| Huffman.AssignCodes | Core-Deprecated/dep/bzip2/huffman.c:152-166 | every symbol gets its canonical code |
| Huffman.CreateDecodeTables | Core-Deprecated/dep/bzip2/huffman.c:170-200 | limit, base and perm describe the canonical code |
| Huffman.ReadWritten | Core-Deprecated/dep/bzip2/decompress.c:74-102 | a code followed by any bits is read as its symbol, consuming exactly its length |
| Huffman.CompleteReads | Core-Deprecated/dep/bzip2/decompress.c:74-102 | with Kraft sum one the decoder never fails on enough bits and returns the symbol they begin with |
| Huffman.ReadSymbolSound | Core-Deprecated/dep/bzip2/decompress.c:74-102 | for every length vector, also over- and under-subscribed ones, a symbol is returned only where the bits begin with its code, and stale perm entries are never read |
| Huffman.LengthRange | Core-Deprecated/dep/bzip2/decompress.c:333-338 | the scan finds the shortest and the longest length |
| Heap.UpHeap | Core-Deprecated/dep/bzip2/huffman.c:33-42 | restores the heap after an insertion at the end |
| Heap.DownHeap | Core-Deprecated/dep/bzip2/huffman.c:44-59 | restores the heap after a replacement at the root |
| Heap.ExtractMin | Core-Deprecated/dep/bzip2/huffman.c:101-102 | removes a lightest node and keeps the others |
| HuffmanTree.MergeKeeps | Core-Deprecated/dep/bzip2/huffman.c:100-110 | joining the two lightest trees keeps the forest invariant, heights bounded by Fibonacci numbers of weights included |
| HuffmanTree.LeavesComplete | Core-Deprecated/dep/bzip2/huffman.c:114-121 | leaf depths of a finished tree have Kraft sum exactly one |
| HuffmanCost.BothLongest | Core-Deprecated/dep/bzip2/huffman.c:100-110 | any complete code can be changed, at no higher cost, so that the two lightest symbols have the longest codes |
| HuffmanCost.MergeBound | Core-Deprecated/dep/bzip2/huffman.c:100-110 | a bound on the cost of every code for the weights with the two lightest added is, that sum added to it, a bound for the weights themselves |
| HuffmanTree.LeavesOptimal | Core-Deprecated/dep/bzip2/huffman.c:100-121 | the leaf depths of a finished tree cost no more than the lengths of any complete code for the same weights |
| CodeLengths.BuildTree | Core-Deprecated/dep/bzip2/huffman.c:84-112 | builds one tree over all symbols with the total weight at its root |
| CodeLengths.RescaleShrinks | Core-Deprecated/dep/bzip2/huffman.c:142-146 | rescaling never raises the total weight and lowers it if any weight exceeds two, so retries end |
| CodeLengths.MakeCodeLengths | Core-Deprecated/dep/bzip2/huffman.c:63-148 | terminates, with lengths from 1 to maxLen and Kraft sum exactly one, for 2 to 258 symbols and maxLen of at least 17; the lengths are optimal among all complete codes for the weights of the last round, that is the frequencies, zeros counted as ones, after w became 1 + w / 2 once for every round in which an optimal code was longer than maxLen; with a total below 6765 no round is rejected |
| CodeLengths.RoundRejected | Core-Deprecated/dep/bzip2/huffman.c:114-124 | a length above maxLen means that an optimal code for the weights in force has one |
| CodeLengths.LightNotRescaled | Core-Deprecated/dep/bzip2/huffman.c:126-146 | frequencies of total weight below 6765 are never rescaled |
| BitStream.Writer.W | Core-Deprecated/dep/bzip2/compress.c:58-79 | appends exactly the n bits of v, residual bits included |
| BitStream.Writer.Finish | Core-Deprecated/dep/bzip2/compress.c:46-54 | pads with zero bits to whole bytes |
| BitStream.Writer.Restart | Core-Deprecated/dep/bzip2/bzlib.c:116-127 | emptying the byte buffer keeps the residual bits |
| BitStream.Reader.Get | Core-Deprecated/dep/bzip2/decompress.c:43-65 | returns the next n bits if they have been supplied, otherwise asks for more and loses nothing |
| BitSeq.GetWritten | Core-Deprecated/dep/bzip2/decompress.c:43-65 | reading a value that was written returns it and the bits behind it |
| Coroutine.WriteThenRead | Core-Deprecated/dep/bzip2/decompress.c:43-65 | for every list of widths and values written and padded, and every way of cutting the bytes into chunks, empty ones included, the reader gets the same values back |
| Coroutine.ChunkingInvisible | Core-Deprecated/dep/bzip2/decompress.c:43-65 | however the input is split, a client of GET_BITS comes to the same state and leaves the same bits |
| Coroutine.Resume | Core-Deprecated/dep/bzip2/decompress.c:106-190 | serving a suspended client through the reader is serving it on the bits so far |
| DecoderStates.Serve | Core-Deprecated/dep/bzip2/decompress.c:196-606 | at every label of BZ2_decompress, with the locals saved there: without enough bits the stream is incomplete, and serving the request leads to a state with the same meaning for the rest of the stream |
| DecoderStates.DriveMeans | Core-Deprecated/dep/bzip2/decompress.c:106-190 | from any label, running to the next lack of input keeps the meaning, whatever bits follow |
| DecoderStates.StartMeans | Core-Deprecated/dep/bzip2/decompress.c:108-134 | from the first label the meaning is the decoding of the whole stream |
| StreamDecoder.DState.Run | Core-Deprecated/dep/bzip2/decompress.c:106-190 | BZ2_decompress over its own fields, from wherever it stopped, goes exactly where the states say and leaves the same bits |
| StreamDecoder.DState.Step | Core-Deprecated/dep/bzip2/decompress.c:43-65 | one request served at any label: all fields saved across it stand for the next state |
| StreamDecoder.DState.OnSelector3 | Core-Deprecated/dep/bzip2/decompress.c:290-314 | a selector's bit: the next state, an error after too many ones, or a store past the end of selectorMtf |
| StreamDecoder.DState.OnCoding2 | Core-Deprecated/dep/bzip2/decompress.c:320-329 | a stop bit stores the length, goes on to the next length, table or to the values |
| StreamDecoder.DState.OnSymbol | Core-Deprecated/dep/bzip2/decompress.c:74-102 | the search for a code goes on, fails, or finds the value that the lengths determine |
| StreamDecoder.DState.OnValue | Core-Deprecated/dep/bzip2/decompress.c:375-492 | a value: run, move to front, end of the block, data error, or the next request, with fifty values to a selector |
| StreamDecoder.SameSearch | Core-Deprecated/dep/bzip2/decompress.c:88-102 | any tables set up for the lengths stop the search at the same width with the same symbol, whatever stale entries they hold |
| BlockFormat.MappingParses | Core-Deprecated/dep/bzip2/compress.c:494-515 | the two-level byte map is read back |
| BlockFormat.SelectorRoundTrip | Core-Deprecated/dep/bzip2/decompress.c:302-314 | undoing the selectors' move to front returns the selectors |
| BlockFormat.UnariesParse | Core-Deprecated/dep/bzip2/compress.c:521-524 | unary selector values are read back |
| BlockFormat.TablesParse | Core-Deprecated/dep/bzip2/compress.c:531-539 | delta-coded length tables are read back |
| BlockFormat.ValuesParse | Core-Deprecated/dep/bzip2/compress.c:544-594 | the coded values, fifty to a selector, are read back up to the end value |
| BlockCode.SelectorsParse | Core-Deprecated/dep/bzip2/compress.c:517-524 | group count, selector count and selectors are read back |
| BlockCode.BodyParses | Core-Deprecated/dep/bzip2/compress.c:494-594 | alphabet and values are read back, whatever tables and selectors were chosen |
| BlockCode.ColumnRoundTrip | Core-Deprecated/dep/bzip2/decompress.c:371-486 | values generated for a column decode to the column |
| BlockCode.BlockParses | Core-Deprecated/dep/bzip2/decompress.c:236-492 | what the encoder sends for a block is parsed to its CRC, starting row and last column |
| BlockCode.BlockRecovered | Core-Deprecated/dep/bzip2/decompress.c:500-573 | the inverse transform of a transmitted block is the block |
| BlockWriter.SendMapping | Core-Deprecated/dep/bzip2/compress.c:494-515 | writes exactly the bits of the byte map |
| BlockWriter.FindSelector | Core-Deprecated/dep/bzip2/compress.c:466-476 | the shifting search finds a selector and moves it to the front |
| BlockWriter.SendSelectors | Core-Deprecated/dep/bzip2/compress.c:517-524 | writes exactly the bits of the selectors |
| BlockWriter.SendTables | Core-Deprecated/dep/bzip2/compress.c:528-539 | writes exactly the bits of the length tables |
| BlockWriter.MakeTable | Core-Deprecated/dep/bzip2/compress.c:446-449 | Huffman lengths for any frequencies, and their canonical codes |
| BlockWriter.SendValues | Core-Deprecated/dep/bzip2/compress.c:544-594 | writes exactly the codes of the values and uses every selector (AssertH 3007) |
| BlockEncoder.BlockSort | Core-Deprecated/dep/bzip2/blocksort.c:1031-1092 | for every block and work factor, by the fallback sorter, by the main sorter, or by the fallback sorter when the main one runs out of budget: a sorted order and the row of rotation 0 |
| BlockEncoder.SendMtfValues | Core-Deprecated/dep/bzip2/compress.c:239-599 | for any choice of frequencies and selectors, makes Huffman tables for those frequencies and writes a body the decoder accepts, with at most 18001 selectors |
| BlockEncoder.MtfValues | Core-Deprecated/dep/bzip2/compress.c:119-231 | the values of the sorted block's last column over the bytes in use |
| BlockEncoder.SendBlock | Core-Deprecated/dep/bzip2/compress.c:604-650 | writes a block that carries its bytes: magic, CRC, starting row, body |
| BlockEncoder.PutUInt32 | Core-Deprecated/dep/bzip2/compress.c:82-89 | four byte writes are the 32 bits of the value |
| BlockReader.UndoSelectors | Core-Deprecated/dep/bzip2/decompress.c:302-314 | the in-place shifts undo the move to front, inside both selector arrays |
| BlockReader.SetUpAll | Core-Deprecated/dep/bzip2/decompress.c:331-349 | every table's limit, base and perm describe the canonical code of its lengths |
| BlockFormat.StoresInBounds | Core-Deprecated/dep/bzip2/decompress.c:290-300 | the selector stores stay inside selectorMtf if and only if at most 18002 selectors are announced or reading stops before selector 18003; then they do not change what is read |
| BlockCode.SelectorsInBounds | Core-Deprecated/dep/bzip2/decompress.c:286-300 | the same for the announcement in the bits; the code checks only that the count is positive |
| BlockCode.OneSelectorTooMany | Core-Deprecated/dep/bzip2/decompress.c:289-300 | 18003 announced selectors, all zero: a store past the end, whatever follows |
| BlockEncoder.SelectorsFit | Core-Deprecated/dep/bzip2/compress.c:452-459 | a block has at most 18001 selectors, so AssertH 3003 and the encoder's array hold |
| Stream.StreamSurvives | Core-Deprecated/dep/bzip2/decompress.c:43-65 | appending bits to a stream changes neither its output nor an error; only a wish for more input can turn into something else |
| BlockCode.BlockSurvives | Core-Deprecated/dep/bzip2/decompress.c:43-65 | the same for a block, and for every part of it |
| Adler32.Delayed | Core-Deprecated/dep/zlib/adler32.c:104-129 | reducing late gives the per-byte checksum of section 2.2 of RFC 1950 |
| Adler32.FitsNmax | Core-Deprecated/dep/zlib/adler32.c:15-16 | NMAX bytes fit 32 bits, even from halves that are not reduced |
| Adler32.NmaxIsLargest | Core-Deprecated/dep/zlib/adler32.c:15-16 | NMAX is the largest n of its defining inequality |
| Adler32.AddBytes | Core-Deprecated/dep/zlib/adler32.c:18-22 | no addition overflows 32 bits and the sums are exact |
| Adler32.Adler32 | Core-Deprecated/dep/zlib/adler32.c:65-133 | the checksum for every buffer and start word, with and without division; for one byte exactly when reducing the second sum once suffices |
| Adler32.Chain | Core-Deprecated/dep/zlib/adler32.c:65-133 | kept up from the word 1 over buffers of any lengths, single bytes included, it is the checksum of all the bytes |
| Adler32.ReducedStays | Core-Deprecated/dep/zlib/adler32.c:78-86 | from a word with reduced halves the short cut is right for every byte, and the halves returned are reduced again |
| Adler32.SingleByteFails | Core-Deprecated/dep/zlib/adler32.c:78-86 | a start word with an unreduced half for which one byte is summed wrongly, and the word then returned is of that kind again |
| Adler32.FewBytes | Core-Deprecated/dep/zlib/adler32.c:93-102 | fewer than sixteen bytes: the sum handed to MOD28 is below 2^28, and the checksum is right |
| Adler32.Mod28Correct | Core-Deprecated/dep/zlib/adler32.c:35-39 | the residue without division below 2^28 |
| Adler32.ModCorrect | Core-Deprecated/dep/zlib/adler32.c:40-44 | the residue without division below 2^32 |
| Adler32.Mod63Correct | Core-Deprecated/dep/zlib/adler32.c:45-57 | the residue without division below 2^63 |
| Adler32.CombineContinues | Core-Deprecated/dep/zlib/adler32.c:136-162 | for any first word, also one with unreduced halves, and every length: combining it with a buffer's checksum gives the checksum continued over the buffer if and only if the two sums are in reach of their subtractions |
| Adler32.CombineFails | Core-Deprecated/dep/zlib/adler32.c:155-160 | a first word and a buffer out of reach |
| Adler32.CombineConcatenates | Core-Deprecated/dep/zlib/adler32.c:136-162 | combining checksums is checksumming the concatenation, from every start with reduced sums and for every length |
| Crc32.MakePattern | Core-Deprecated/dep/zlib/crc32.c:95-108 | the loop over the terms sets bit 31 - t exactly for the terms t of the polynomial, and so makes the pattern that a bit step uses |
| Crc32.ShiftDivides | Core-Deprecated/dep/zlib/crc32.c:112-114 | a bit step multiplies by x modulo the polynomial: the coefficient of x^t comes from that of x^(t-1), changed for the terms t exactly when x^32 came out |
| Crc32.CheckValue | Core-Deprecated/dep/zlib/crc32.c:204-236 | the digits 1 to 9, bytes 0x31 to 0x39, have CRC 0xcbf43926 |
| Crc32.MakeTables | Core-Deprecated/dep/zlib/crc32.c:90-133 | table k holds the effect of a byte followed by k zero bytes |
| Crc32.Crc32Bytes | Core-Deprecated/dep/zlib/crc32.c:204-236 | the byte-wise form is the bit-serial CRC on every buffer |
| Crc32.Lit4Step | Core-Deprecated/dep/zlib/crc32.c:241-243 | four look-ups are thirty-two bit steps |
| Crc32.WordStep | Core-Deprecated/dep/zlib/crc32.c:241-243 | a little-endian word at once is its four bytes in turn |
| Crc32.Crc32Little | Core-Deprecated/dep/zlib/crc32.c:247-278 | the word-wise form is the bit-serial CRC for every buffer and alignment |
| Crc32.CrcConcat | Core-Deprecated/dep/zlib/crc32.c:204-236 | checksumming in pieces is checksumming the whole |
| Crc32.RegisterLinear | Core-Deprecated/dep/zlib/crc32.c:327-341 | the register is affine over GF(2) in its start |
| Crc32.MatrixTimes | Core-Deprecated/dep/zlib/crc32.c:327-341 | the matrix of an operator applies the operator; no index leaves the matrix |
| Crc32.MatrixSquare | Core-Deprecated/dep/zlib/crc32.c:344-351 | squaring doubles the number of zero bits |
| Crc32.Crc32Combine | Core-Deprecated/dep/zlib/crc32.c:355-408 | from the CRCs of two buffers and the second length it makes the CRC of the concatenation; for other words it lets 8 * len2 zero bits into the first and adds the second |
| Crc32.CombineConcatenates | Core-Deprecated/dep/zlib/crc32.c:355-408 | zero bits let into the first CRC and the second added: the CRC of the concatenation, for all byte strings |

## Left out

- MainSort.Sort: the four-fold unrolling of the counting and placing loops is not repeated; block, quadrant, ptr and ftab are separate arrays, where the original overlays them.
- Randomised blocks (decompress.c:512-522, bzlib.c:540-586): the encoder never writes them; the model's decoder rejects them.
- The heuristics of sendMTFValues (compress.c:262-450): an arbitrary function `choose` from values to frequencies and selectors stands for them.
- Decompressor.Decompress: randomised blocks are rejected, and after a store past the end of an array nothing more is said. Each chunk is decoded with as many output buffers as it takes before the next is supplied.
- StreamDecoder.DState.Run: labels that differ only in which byte of a number or magic comes next are one label with a counter; bytes of the decoded column are kept in one array of numbers that stands for tt and for ll16.
- FastOutput.Output.UnRleFast: the original discards its local copies when it reports corruption; the object's state is unspecified then.
- CodeLengths.MakeCodeLengths: frequencies with zeros counted as ones must sum to less than 2^23, as the 24-bit weight field demands; blocks of 900000 bytes stay far below.
- FallbackSort.Sort: header bits are one array element each; eclass and eclass8 are separate arrays; the checks that end the scan in the sentinels are proved unnecessary rather than kept.
- MainQSort.QSort3Main: the keys block[ptr + d] are read through an array that stands for the pointer block + d, so that the partition code is shared with the fallback sorter.
- BlockEncoder.SendBlock: the block is copied to an array of its own length before sorting, and the sorted order to the array that values will overwrite; the fast track for six full groups, an unrolled copy of the loop, is not repeated.
- Compressor.EState.CompressBlock: the physical size and place of the compressed bytes inside arr2 are not modelled; zbits grows as needed.
- BlockCrc: the contents of crctable.c are given by their polynomial rather than listed.
- Crc32: crc32_big, the run-time endianness test and the guard against concurrent table making are not modelled.
- BZ_DATA_ERROR_MAGIC is not told apart from BZ_DATA_ERROR, and BZ_PARAM_ERROR for null or foreign streams, memory errors, total_in and total_out counters and verbosity are not modelled.
- The stdio interface and the bzopen helpers of bzlib.c, and every other part of the repository (gSOAP glue, SFMT, deflate headers, READMEs).
