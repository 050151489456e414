# Compressors, proved

The repository carries two compression libraries, bzip2 under `dep/bzip2` and zlib under `dep/zlib`.
This project models their working parts in Dafny, in the form the C code has — loops that change
arrays and records in place — and proves what these parts are for.

**bzip2, from bytes to bytes.** Initial run-length coding as a resumable stream; both block sorters
(the doubling sort with its bit-marked buckets, and the radix sort with pointer scanning and the
quadrant cache); move-to-front and zero runs written over the memory of the sorted pointers;
length-limited Huffman construction; canonical codes; the bit stream; and the way back, with both
inverse transforms. The main results:

- `Buffers.BuffToBuffCompress` and `Buffers.BuffToBuffDecompress`: whatever the block size, the work
  factor, the sorter that ran and the choice of coding tables, the decompressor, FAST or SMALL, gives
  back the source.
- `CompressStream.EState.BzCompress` and `DecompressStream.DState.BzDecompress`: the same for any
  sequence of calls: compressing, however input and output are cut and whatever is flushed in between;
  decompressing, however the output is cut.
- `MainSort.Sort`, `FallbackSort.Sort`, `BlockSort.SortBlock`: the rows are all rotations in order.
  The main sort rests on `MainCompare.MainGtU` (a comparison that may use cached quadrants),
  `MainQSort.MainQSort3` (no stack overflow, at most 36 entries) and `PointerScan.Scan` (buckets put
  in order without a comparison, for every block, one-character blocks included).
- `HuffmanLengths.MakeCodeLengths`: the rescaling loop ends, the code is complete, and no code takes
  fewer bits for the frequencies it goes by (`OptimalCode.MergeBest` is why).
- `MtfEncoder.GenerateMtfValues`: no pointer is overwritten before it is read.
- `SectionedMtf.SectionedList.Take`: the two-level list refines the plain one.

**zlib, from text to tokens and back.** The sliding window, the hash chains, the longest-match search
and four compressors; both inflating loops with their bit accumulator and their window copies. The
main results:

- `DeflateEngines.Deflate`: for any calls with any chunks and any flushes, full ones included, the
  tokens recorded expand to exactly the input passed, and those since the last full flush stand by
  themselves; and a call stops short of what it was asked for only for want of output room or of input.
  `DeflateHash.ThirdByte` is why the third byte need not be compared.
- `DeflateMatch.LongestMatch`: no string that the search may visit makes a longer match, unless the one
  found is nice enough.
- `InflateFast.InflateFast` and `InflateBack.DecodeBlock`: the symbols read are the symbols of the
  bits, the text written is the text they stand for, and no bit is lost.
- `RoundTrip.InflateData`: whatever code carries the tokens recorded for some data up to the end of a
  block, the call-back inflater ends with that data, having used exactly those bits;
  `RoundTrip.BitsCarryData`: such bits carry nothing else.

**zlib, checksums.** `Adler.Adler32`, `CrcRoutines.Crc32Little`, `CrcRoutines.Crc32Big` equal their
definitions by sums and by single bits; this CRC and that of bzip2 are remainders on division by one
and the same polynomial (`CrcRemainder.UpdateIsRemainder`, `CrcRemainder.BlockCrcIsRemainder`);
`Adler.Adler32Combine` and `CrcCombine.Crc32Combine` give the checksum of a concatenation.

Conventions. A byte is a number below 256. Rotations are compared by a recursive three-way comparison
of their first h characters (`Rotations.Cmp`). A method's ghost arguments name what a stream may stand
for; they are no part of what it computes. The C code's assertions (1001 to 1007, 2001, 2002, 3001 to
3007) are proof obligations here: where a method verifies, they cannot fire. Loops unrolled by hand
are plain loops.

## What does not hold

Three things one might expect of the code are not so. Each is shown with an input, and with the exact
condition under which it does hold.

- The decompressor stores selectors without comparing their number, fifteen bits long, with the 18002
  cells of its arrays (`dep/bzip2/decompress.c:286-300`). `BlockCodec.OverrunHappens` gives an input;
  `BlockReader.ReceiveSelectors` and `BlockCodec.ReceiveSelectorPart` say that all stores stay inside
  exactly when no 18003rd rank is stored, for which a count of at most 18002 is enough, and
  `BlockCodec.PlanSendable` that the compressor never sends more. What the C code does after such a
  store is undefined, and the model stops there.
- A smaller quadrant is said to mean that a rotation comes before another
  (`dep/bzip2/blocksort.c:964-985`). For a bucket just cached with no shift, as every bucket of up to
  65534 rows is, this holds exactly when the block is not a repetition of a shorter one
  (`QuadrantClaim.UnshiftedExactly`, and `MainSort.SortBig` for the state the sorter makes); with a
  shift, exactly when the number of times the block has its shortest part divides the width of the
  shift (`QuadrantClaim.PrecedesExactly`, and `MainSort.UpdateQuadrants`).
  `QuadrantClaim.PrecedesFails` gives inputs, twice some bytes that begin with one found nowhere else
  in them. What always holds, and is enough for the sort, is that the rotation does not come after the
  other (`QuadrantCache.CachedTrue`).
- The call-back inflater hands its fast loop the fill of the window at entry as if these bytes came
  before the output, which begins at the start of the same window (`dep/zlib/infback.c:482-490`).
  `InflateReach.FarAccepted` runs an inflater from its fresh state on an input, the byte 13 and zeros,
  of which it accepts a distance of two with one byte of text;
  `InflateBack.Hurry` and `InflateReach.FirstMatch` give the exact bound, and
  `InflateReach.TightExactly` says when everything accepted is near: when the stretch begins with an
  empty window, or with a full one of the largest size.

## Model

| member | source | states |
|---|---|---|
| `Buffers.BuffToBuffCompress` | dep/bzip2/bzlib.c:1247-1295 | a parameter error exactly for a block size outside 1..9 or a work factor outside 0..250; on success the destination fits and is a complete stream of the source, whatever the sorter and the table choice; it is called full only with all room used, and nothing else can go wrong unless there is no room at all |
| `Buffers.BuffToBuffDecompress` | dep/bzip2/bzlib.c:1299-1348 | a complete stream of `raw` gives back `raw` whenever it fits and a full-buffer error exactly when it does not, with FAST or SMALL tables alike |
| `Buffers.CompleteIsStream` | dep/bzip2/compress.c:602-667 | the stream the compressor calls complete is one the decompressor is promised to accept |
| `CompressStream.EState.BzCompress` | dep/bzip2/bzlib.c:407-464 | one call from any reachable state and with any action: the invariant is kept, input is taken in order, output already given stays, and at the end of the stream the output is a complete stream whose blocks stand for exactly the bytes taken; a call reports progress exactly when input or output moved, stops only for want of one of them, and a flush reported done has sent every byte taken |
| `CompressStream.EState.Report` | dep/bzip2/bzlib.c:418-463 | what the caller is told after a call: progress, a flush or finish not done exactly if something is still to be taken or handed over, or the end |
| `CompressStream.EState.HandleCompress` | dep/bzip2/bzlib.c:361-403 | any alternation of filling and draining keeps the invariant: decodings of finished blocks, then of the block, then the pending run, concatenate to the input consumed; block never overfull |
| `CompressStream.EState.InputStep` | dep/bzip2/bzlib.c:382-398 | one round of the input phase keeps that invariant and sends a block only when it is full or a flush has all it asked for |
| `CompressStream.EState.OutputStep` | dep/bzip2/bzlib.c:369-380 | one round of the output phase keeps it and starts the next block only after every byte has been handed over |
| `CompressStream.EState.CopyInputUntilStop` | dep/bzip2/bzlib.c:289-329 | bytes move from the caller to the block in order; stops exactly at a full block, no input, or a satisfied flush |
| `CompressStream.EState.CopyOutputUntilStop` | dep/bzip2/bzlib.c:334-356 | the output grows by the next bytes of the compressed block, as many as there is room for |
| `CompressStream.EState.AddCharToBlock` | dep/bzip2/bzlib.c:260-284 | the fast and the general case both add exactly one raw byte to what block and pending run stand for |
| `CompressStream.EState.AddPairToBlock` | dep/bzip2/bzlib.c:216-247 | the pending run goes into at most five cells that expand to it; the checksum covers its raw bytes, and inUse covers the cells |
| `CompressStream.EState.FlushRL` | dep/bzip2/bzlib.c:252-256 | nothing is pending afterwards and the same bytes are stood for |
| `CompressStream.EState.CompressBlock` | dep/bzip2/compress.c:602-667 | header, block and trailer appear in the bit stream exactly where they belong, and fit in the memory behind the block; the combined checksum is the rotated sum over all blocks sent |
| `CompressStream.EState.SendParts` | dep/bzip2/compress.c:602-667 | header, block and trailer as they apply; all bytes fit in the memory behind the block |
| `BlockSize.BlockFits` | dep/bzip2/compress.c:619-664 | the bits of a block, with what was kept, the stream header and the trailer, are never more than the memory behind the block |
| `BlockSize.PlanSize` | dep/bzip2/compress.c:494-594 | mapping, selectors, tables and codes are bounded by the symbols sent |
| `CompressStream.PairAdded` | dep/bzip2/bzlib.c:216-247 | putting a run into the block keeps the decoding of block plus pending run |
| `CompressStream.CrcOfRun` | dep/bzip2/bzlib_private.h:157-172 | the block checksum is that of the raw bytes, not of the run-length coded ones |
| `CompressStream.EState.constructor` | dep/bzip2/bzlib.c:148-211 | a fresh compressor satisfies the invariant with nothing consumed and nothing sent |
| `RunLength.PairExpands` | dep/bzip2/bzlib.c:216-247 | one to three copies, or four and a count, expand to the run, and any byte may follow |
| `RunLength.ExpandNext` | dep/bzip2/bzlib.c:216-247 | the expansion automaton read one more cell further |
| `DecompressStream.DState.BzDecompress` | dep/bzip2/bzlib.c:808-858 | on a complete stream no call fails, each call fills the room it is given or reaches the end, and at the end the output is what the blocks stand for, however the room was cut; on any input the end is reported only when the combined checksum is the one stored |
| `DecompressStream.DState.PlayBlock` | dep/bzip2/bzlib.c:817-840 | a block is played as far as room allows; when used up, it stands for bytes with the checksum stored, on any input, and that is folded into the combined one |
| `DecompressStream.DState.CloseBlock` | dep/bzip2/bzlib.c:824-838 | an error exactly if the checksum is not the one stored; otherwise it is folded into the combined one |
| `DecompressStream.DState.Finish` | dep/bzip2/bzlib.c:842-851 | the end exactly if the combined checksum is the one stored |
| `DecompressStream.DState.OpenNext` | dep/bzip2/bzlib.c:841-853 | block headers are opened up to the next non-empty block or the end of the stream |
| `DecompressStream.DState.OpenStream` | dep/bzip2/decompress.c:197-222 | the stream header is accepted as written; on any input, what is accepted begins with the magic and the block size |
| `DecompressStream.GetHeader` | dep/bzip2/decompress.c:197-208 | the three magic bytes and the block size, on any input accepted exactly as they stand |
| `DecompressStream.DState.OpenBlock` | dep/bzip2/decompress.c:222-250 | block or trailer is told apart by its first magic byte; on any input, what is accepted begins with the magic and the checksum stored |
| `DecompressStream.DState.OpenTrailer` | dep/bzip2/decompress.c:584-605 | the trailer written is accepted and delivers the stored combined checksum |
| `DecompressStream.TapeIsBlock` | dep/bzip2/decompress.c:494-576 | the bytes fetched from a received column begin with the block that was sorted |
| `StreamFormat.BlocksSame` | dep/bzip2/compress.c:602-667 | blocks in the order written and in the order read are the same bits |
| `StreamFormat.MagicNumbers` | dep/bzip2/compress.c:632-660 | a block begins with twelve decimal digits of pi and the trailer with those of its square root |
| `StreamFormat.RotatedBit` | dep/bzip2/compress.c:607 | every bit goes one place up, and the top one to the bottom |
| `StreamFormat.CombinedBit` | dep/bzip2/compress.c:605-608 | the combined checksum in closed form: a bit is set when an odd number of blocks contribute it, each block its checksum turned by as many places as blocks follow it |
| `BlockCodec.SendBlock` | dep/bzip2/compress.c:602-653 | the bits written for a non-empty block are magic, checksum, flag, origPtr and the coded symbols of a rotation order of the block; the block itself is unchanged |
| `BlockCodec.SendSorted` | dep/bzip2/compress.c:119-231 | the symbols sent are the move-to-front and run coding of the last column of the pointers given |
| `BlockCodec.ReceiveBlock` | dep/bzip2/decompress.c:222-492 | an accepted block has a column with its own byte counts and an origPtr inside it, and a block that was sent comes back as its last column, consuming exactly its bits, without a store past the selector arrays; on other input a block is refused, or reported as overrunning them |
| `BlockCodec.ReceiveHeader` | dep/bzip2/decompress.c:226-263 | checksum, flag and origPtr come back as sent; out-of-range pointers are refused |
| `BlockCodec.ReceiveTablesPart` | dep/bzip2/decompress.c:265-347 | mapping, selectors and tables come back as sent; on other input they are refused, or reported as overrunning the selector arrays; no more selectors are accepted than the arrays have cells |
| `BlockCodec.ReceiveSelectorPart` | dep/bzip2/decompress.c:286-314 | counts and selectors come back as sent; a store past the arrays happens exactly when the count is above 18002 and 18003 well-formed ranks follow |
| `BlockCodec.OverrunHappens` | dep/bzip2/decompress.c:286-300 | an input that overruns the arrays: two tables, 18003 selectors, a zero bit for each |
| `BlockCodec.PlanSendable` | dep/bzip2/compress.c:455-458 | tables and selectors chosen for a block of at most 900000 bytes can be sent, with at most 18002 selectors |
| `BlockCodec.ColumnBack` | dep/bzip2/decompress.c:349-492 | renumbering undone, what was received is the byte before each sorted rotation |
| `BlockCodec.SentIsAcceptable` | dep/bzip2/decompress.c:349-486 | no symbol of a block that was sent is refused by the receiver |
| `BlockCodec.AssignGroups` | dep/bzip2/compress.c:287-330 | every group of fifty symbols gets a table and every symbol is counted once, whatever choice is made |
| `BlockCodec.ChooseTables` | dep/bzip2/compress.c:239-450 | two to six tables with lengths of 1 to 17 and Kraft sum one, and a selector for every group, at most 18002 of them: assertions 3002 to 3005 |
| `BlockCodec.CompleteIsUsable` | dep/bzip2/compress.c:480-492 | lengths of at most 17 with Kraft sum one are usable by a decoder limited to 20 |
| `BlockCodec.GetOrigPtr` | dep/bzip2/decompress.c:252-258 | three bytes, most significant first, are the 24 bit number that was sent |
| `BlockCodec.GetUInt32` | dep/bzip2/decompress.c:242-249 | four bytes, most significant first, are the checksum that was sent; on any input they are the bytes of what is returned |
| `BlockWriter.SendPlan` | dep/bzip2/compress.c:461-598 | mapping, selectors, tables and codes go out as the format prescribes |
| `BlockWriter.SendMapping` | dep/bzip2/compress.c:494-515 | sixteen flags, then sixteen flags for each set one |
| `BlockWriter.ComputeSelectorMtf` | dep/bzip2/compress.c:461-478 | each selector becomes its move-to-front rank, within an array of 18002 cells |
| `BlockWriter.SendSelectors` | dep/bzip2/compress.c:517-524 | ranks go out in unary after the two counts |
| `BlockWriter.SendTable` | dep/bzip2/compress.c:531-539 | lengths go out as five bits and then steps of one |
| `BlockWriter.SendCodes` | dep/bzip2/compress.c:544-594 | every symbol goes out as its code word in the table selected for its group |
| `BlockReader.ReceiveMapping` | dep/bzip2/decompress.c:266-284 | the set of bytes in use comes back; total on other input |
| `BlockReader.ReceiveSelectors` | dep/bzip2/decompress.c:286-300 | ranks below the number of tables come back as sent; they are stored without a check of their number against the 18002 cells: all stores stay inside exactly when no 18003rd rank is stored, that is, when the count is at most 18002 or fewer than 18003 well-formed ranks follow |
| `BlockReader.RanksAheadAreSent` | dep/bzip2/decompress.c:290-299 | ranks that lie ahead are the bits of numbers below the number of tables |
| `BlockReader.SentRanksAhead` | dep/bzip2/decompress.c:290-299 | and bits of such numbers are ranks ahead |
| `BlockReader.ZerosAreRanks` | dep/bzip2/decompress.c:290-299 | zeros are as many ranks |
| `BlockReader.UndoSelectorMtf` | dep/bzip2/decompress.c:302-314 | move-to-front ranks in an array of 18002 cells are turned back into the selectors they were computed from |
| `BlockReader.ReceiveTable` | dep/bzip2/decompress.c:317-329 | the lengths come back and never leave 1..20 |
| `BlockReader.MakeTables` | dep/bzip2/decompress.c:331-347 | limit, base and perm of every table describe its canonical code |
| `BlockFormat.OnlyOneMatches` | dep/bzip2/huffman.c:152-166 | at most one symbol of a usable code matches the bits ahead |
| `SymbolDecoder.SymbolReader.GetMtfVal` | dep/bzip2/decompress.c:74-102 | the next symbol, by the table of its group of fifty; consumes exactly its code word |
| `SymbolDecoder.ReceiveSymbols` | dep/bzip2/decompress.c:358-486 | total; accepted only when the symbols read up to the end mark decode to the column stored, with its byte counts, and symbols that were sent are all accepted |
| `SymbolDecoder.ReceiveRun` | dep/bzip2/decompress.c:379-417 | a run in bijective base two becomes that many copies of the front entry; no legal run meets the bound on N |
| `SymbolDecoder.ReceiveRank` | dep/bzip2/decompress.c:419-485 | a rank becomes the entry at that place, which moves to the front |
| `SymbolDecoder.ColumnBuffer.AppendRun` | dep/bzip2/decompress.c:399-415 | copies are stored and counted unless the block has no room |
| `SymbolDecoder.ToFrontBelowN` | dep/bzip2/decompress.c:423-477 | positions below nInUse always hold values below nInUse |
| `BitStream.BitWriter.W` | dep/bzip2/compress.c:58-78 | the n low bits of v are appended to everything written so far |
| `BitStream.BitWriter.NeedW` | dep/bzip2/compress.c:58-67 | whole bytes leave the buffer and fewer than eight bits stay; nothing written changes |
| `BitStream.BitWriter.FinishWrite` | dep/bzip2/compress.c:46-54 | the rest goes out padded with fewer than eight zero bits |
| `BitStream.BitReader.GetBits` | dep/bzip2/decompress.c:43-65 | the next n bits as a number, consuming exactly them; nothing is lost when input runs out |
| `Bits.BitsOfValue` | dep/bzip2/decompress.c:43-65 | bits read as a number and written again are the bits |
| `Bits.ValueOfBits` | dep/bzip2/compress.c:71-78 | a number written in n bits and read back is the number |
| `Bits.TopAppend` | dep/bzip2/compress.c:71-78 | the bits put below the live ones do not overlap them |
| `Bits.LowTake` | dep/bzip2/decompress.c:43-51 | taking bits from the top of the live ones leaves the rest |
| `CanonicalCodes.CodeFits` | dep/bzip2/huffman.c:152-166 | lengths that satisfy the Kraft inequality get codes that fit their lengths |
| `CanonicalCodes.PrefixFree` | dep/bzip2/huffman.c:152-166 | no code word begins another, for all lengths satisfying the Kraft inequality |
| `CanonicalCodes.AssignCodes` | dep/bzip2/huffman.c:152-166 | every symbol gets its canonical code |
| `CanonicalCodes.CreateDecodeTables` | dep/bzip2/huffman.c:170-200 | limit, base and perm describe the same canonical code |
| `CanonicalCodes.GetSymbol` | dep/bzip2/decompress.c:89-101 | a symbol comes out exactly when its code word is what the input begins with, and exactly those bits are consumed |
| `CanonicalCodes.SearchHit` | dep/bzip2/decompress.c:90-101 | the search stops at the row of the symbol whose code was read |
| `CanonicalCodes.SearchMiss` | dep/bzip2/decompress.c:91-97 | when the search passes every length no symbol matches |
| `HuffmanLengths.MakeCodeLengths` | dep/bzip2/huffman.c:63-148 | terminates; every length is in 1..maxLen and the Kraft sum is exactly one, for alphabets of 2 to 258 symbols; no code with any lengths takes fewer bits for symbols that occur as often as the frequencies say after so many halvings, and each of these halvings followed a shortest code with a code word that was too long; there is none when the frequencies add up to less than a Fibonacci number that maxLen gives |
| `HuffmanLengths.Round` | dep/bzip2/huffman.c:84-121 | one tree over the current weights; its leaf depths form a complete code that takes the fewest bits of all codes for these weights, and the heap never overflows |
| `HuffmanLengths.TooLongIsHeavy` | dep/bzip2/huffman.c:142-146 | a code that came out too long had a weight above two left to halve, so rescaling makes progress |
| `HuffmanLengths.HalvingShrinks` | dep/bzip2/huffman.c:142-146 | rescaling shrinks the sum of weights whenever one is above two |
| `HuffmanLengths.DepthsAreCode` | dep/bzip2/huffman.c:114-121 | depths of a finished tree have Kraft sum one |
| `HuffmanBest.DepthsAreShortest` | dep/bzip2/huffman.c:99-121 | the depths of the leaves take no more bits than the lengths of any code whatever |
| `HuffmanBest.Cheapest` | dep/bzip2/huffman.c:99-110 | at every stage of the merging no lengths for the roots cost less than the nodes still to be made weigh |
| `HuffmanBest.DepthsCost` | dep/bzip2/huffman.c:99-121 | and their depths cost just that |
| `OptimalCode.MergeBest` | dep/bzip2/huffman.c:99-110 | if no code for the nodes after a merge of the two lightest costs less than c, none for the nodes before it costs less than c and the weight of the new node |
| `OptimalCode.Deepen` | dep/bzip2/huffman.c:99-110 | any code can be changed, without costing more, so that the two lightest nodes have the longest code words, of equal length |
| `OptimalCode.LowerKeeps` | dep/bzip2/huffman.c:99-110 | a length that exceeds all others can be made the greatest of these |
| `OptimalCode.SwapKeeps` | dep/bzip2/huffman.c:99-110 | exchanging lengths so that the lighter node has the longer one does not cost more |
| `HuffmanLengths.MergeTwo` | dep/bzip2/huffman.c:100-110 | the two lightest nodes become children of a new node that weighs both |
| `HuffmanForest.HeightBound` | dep/bzip2/huffman.c:25-31 | a tree whose weight is at least the Fibonacci number of its height is at most 12 high below weight 610 and at most 32 high below 2^23 |
| `HuffmanForest.LeafDepth` | dep/bzip2/huffman.c:114-121 | no leaf is deeper than its total weight allows |
| `HuffmanForest.FrontierWhole` | dep/bzip2/huffman.c:100-121 | the shares of all leaves below a node add up to one whole |
| `HuffmanForest.MergeFits` | dep/bzip2/huffman.c:25-31 | heights stay within the eight bits they are packed in, and weights do not pass the total |
| `HuffmanHeap.UpHeap` | dep/bzip2/huffman.c:33-42 | the heap order is restored after an entry was added |
| `HuffmanHeap.DownHeap` | dep/bzip2/huffman.c:44-59 | the heap order is restored after the top was replaced |
| `HuffmanHeap.TopIsLightest` | dep/bzip2/huffman.c:100-102 | the entry taken is the lightest |
| `MoveToFront.RoundTrip` | dep/bzip2/compress.c:119-231 | decoding undoes encoding on every column, runs and all; no run is refused by the bound on digit weights |
| `MoveToFront.DecodeInStep` | dep/bzip2/decompress.c:377-486 | after any number of bytes the decoder is where the encoder is |
| `MoveToFront.DigitsRead` | dep/bzip2/decompress.c:379-400 | bijective base two digits are read back exactly |
| `MoveToFront.RunDigitsValue` | dep/bzip2/compress.c:174-188 | the symbols of a run, each taken for its number and one more, times ever higher powers of two, add up to the length of the run |
| `MtfEncoder.GenerateMtfValues` | dep/bzip2/compress.c:119-231 | symbols written over the memory of the sorted pointers never destroy a pointer still to be read; the symbols and their counts are those of the column |
| `MtfEncoder.PointerIntact` | dep/bzip2/compress.c:135-148 | a pointer not yet passed is read unharmed although sixteen-bit cells are written over the array |
| `MtfEncoder.EncodeOne` | dep/bzip2/compress.c:163-210 | one byte of the column: a zero held back, or the pending run and a rank |
| `MtfEncoder.EncodeRank` | dep/bzip2/compress.c:174-210 | the zeros held back, then the rank of a byte that is not in front |
| `MtfEncoder.EmitRun` | dep/bzip2/compress.c:174-188 | the digit loop on z - 1 writes the bijective base two digits of z |
| `MtfEncoder.MoveFront` | dep/bzip2/compress.c:189-207 | bubbling entries down finds the byte and puts it first |
| `MtfEncoder.MakeMapsE` | dep/bzip2/compress.c:106-115 | bytes in use are numbered in ascending order |
| `MtfEncoder.MakeMapsD` | dep/bzip2/decompress.c:27-36 | the decoder numbers them back |
| `SectionedMtf.SectionedList.Take` | dep/bzip2/decompress.c:423-475 | the two-level array refines the plain 256 entry list: entry nn comes out and moves to the front, all indices in range |
| `SectionedMtf.SectionedList.TakeNear` | dep/bzip2/decompress.c:429-444 | an entry of the first section |
| `SectionedMtf.SectionedList.TakeFar` | dep/bzip2/decompress.c:445-473 | an entry of a later section; one entry is pulled across every border |
| `SectionedMtf.SectionedList.Rebase` | dep/bzip2/decompress.c:463-472 | moving all sections to the far end keeps the list |
| `SectionedMtf.SectionedList.constructor` | dep/bzip2/decompress.c:358-369 | starts as the byte values in order |
| `SectionedMtf.PullStep` | dep/bzip2/decompress.c:455-460 | pulling one entry over a border keeps the sections apart and the list in order |
| `BurrowsWheeler.InverseRecoversBlock` | dep/bzip2/decompress.c:494-576 | for every non-empty block, every rotation order of it and every row of rotation 0, walking the stable sort of the last column emits the block |
| `BurrowsWheeler.ShiftedIsRotationOrder` | dep/bzip2/decompress.c:557-562 | stably sorting the preceding rotations by first byte sorts them |
| `BurrowsWheeler.RankOrder` | dep/bzip2/decompress.c:557-562 | counting sort ranks follow bytes, and positions among equal bytes |
| `BurrowsWheeler.StableSortUnique` | dep/bzip2/decompress.c:524-577 | there is only one stable sort, so FAST and SMALL decoders emit the same bytes |
| `Permutations.OrderUnique` | dep/bzip2/blocksort.c:1044-1081 | any two rotation orders agree row by row up to equal rotations, so either sorter gives the same last column |
| `InverseFast.FastTable.constructor` | dep/bzip2/decompress.c:557-562 | building the links in the high bits, over the bytes still to be read, gives the stable sort |
| `InverseFast.Link` | dep/bzip2/decompress.c:558-562 | words already written are still read correctly |
| `InverseFast.RunningSums` | dep/bzip2/decompress.c:501-504 | running sums are where each byte's rows start |
| `InverseFast.CheckTables` | dep/bzip2/decompress.c:496-516 | the sanity checks never refuse honest counts |
| `InverseFast.FastTable.Get` | dep/bzip2/bzlib_private.h:444-456 | the next byte of the walk |
| `InverseSmall.SmallTable.constructor` | dep/bzip2/decompress.c:524-555 | ranks, then pointer reversal, give links along the stable sort on the cycle through origPtr |
| `InverseSmall.SmallTable.ComputeRanks` | dep/bzip2/decompress.c:527-534 | the cells come to hold each row's rank |
| `InverseSmall.SmallTable.PointerReversal` | dep/bzip2/decompress.c:536-545 | inverts the whole cycle through origPtr and terminates |
| `InverseSmall.TurningStep` | dep/bzip2/decompress.c:538-545 | each row reached is new until the cycle closes |
| `InverseSmall.LinkArray.Set` | dep/bzip2/bzlib_private.h:458-470 | twenty-bit cells behave like an array although two share a byte |
| `InverseSmall.LinkArray.Get` | dep/bzip2/bzlib_private.h:464-473 | reads back what was stored |
| `InverseSmall.IndexIntoF` | dep/bzip2/bzlib.c:687-698 | the binary search finds the byte whose bucket holds the row |
| `InverseSmall.SmallTable.Get` | dep/bzip2/bzlib_private.h:475-479 | the next byte of the walk, and the link after it |
| `UnRle.FastOutput.Unrle` | dep/bzip2/bzlib.c:590-681 | run-length decoding into any room: output is a prefix of the block's expansion, checksum kept, corruption only for a count missing at the end |
| `UnRle.SmallOutput.Unrle` | dep/bzip2/bzlib.c:759-803 | the same from the SMALL tables |
| `UnRle.OneTape` | dep/bzip2/decompress.c:524-577 | whatever stable sort of a column the links follow, the bytes fetched are the same |
| `DecompressStream.OpenFast` | dep/bzip2/decompress.c:557-576 | from any accepted column, sent or not, the FAST tables fetch the one tape of that column |
| `DecompressStream.OpenSmall` | dep/bzip2/decompress.c:524-555 | and so do the SMALL tables |
| `UnRle.PlayEnd` | dep/bzip2/bzlib.c:632-639 | when all fetched bytes have been given out the block has been given out entirely |
| `UnRle.LongRun` | dep/bzip2/bzlib.c:640-661 | four equal bytes, their count and the byte after it |
| `FallbackSort.Sort` | dep/bzip2/blocksort.c:212-329 | fmap lists every rotation once, in order; the block, whose storage the class numbers overwrite, is rebuilt exactly |
| `FallbackSort.Refine` | dep/bzip2/blocksort.c:259-313 | passes at depths 1, 2, 4, ... end with all rotations in order |
| `FallbackSort.Pass` | dep/bzip2/blocksort.c:266-306 | after a pass at depth H the buckets are exactly the classes equal on 2H bytes |
| `FallbackSort.SortBucket` | dep/bzip2/blocksort.c:294-305 | one bucket sorted by class and split at changes |
| `FallbackSort.AssignClasses` | dep/bzip2/blocksort.c:266-271 | every rotation gets the header of the rotation H places on |
| `FallbackSort.MarkStarts` | dep/bzip2/blocksort.c:243-257 | bucket starts and sentinels are marked |
| `FallbackSort.Distribute` | dep/bzip2/blocksort.c:236-241 | one-byte radix sort |
| `FallbackSort.CountBytes` | dep/bzip2/blocksort.c:231-234 | plain counts and running sums of the bytes |
| `FallbackSort.RebuildBlock` | dep/bzip2/blocksort.c:322-328 | rows and byte counts alone give the block back; the byte found is always below 256 |
| `FallbackSort.FindOrigPtr` | dep/bzip2/blocksort.c:1083-1088 | rotation 0 is found, and assertion 1003 never fires |
| `Buckets.RefineBucket` | dep/bzip2/blocksort.c:294-305 | sorting a bucket by class and marking the changes doubles its depth |
| `Buckets.ClassesOrderNext` | dep/bzip2/blocksort.c:266-271 | header numbers order rotations by their next H characters |
| `Buckets.RefinedIsSorted` | dep/bzip2/blocksort.c:311-312 | all headers, or depth beyond the block, mean that rotations are in order |
| `Buckets.SkipSingles` | dep/bzip2/blocksort.c:278-284 | positions skipped are decided already |
| `HeaderBits.BitTable.Skip` | dep/bzip2/blocksort.c:278-292 | bit by bit, then by words, then bit by bit finds the next bit of the other kind |
| `WordBits.SetBit` | dep/bzip2/blocksort.c:205-207 | setting or clearing a bit changes no other |
| `FallbackQSort.QSort3` | dep/bzip2/blocksort.c:93-180 | sorts a range by class and permutes it; terminates, and the stack holds at most 18 entries for blocks up to 900000, so assertion 1004 never fires |
| `FallbackQSort.SortOrSplit` | dep/bzip2/blocksort.c:114-178 | a range is sorted outright or split around its pivot |
| `FallbackQSort.SimpleSort` | dep/bzip2/blocksort.c:32-59 | two-pass insertion sort |
| `FallbackQSort.ReplaceTop` | dep/bzip2/blocksort.c:109-180 | entries out of order always lie in one pending range |
| `FallbackQSort.HalvingPush` | dep/bzip2/blocksort.c:172-178 | pushing the longer part first halves the next one |
| `Partitioning.ThreeWay` | dep/bzip2/blocksort.c:126-167 | less, equal, greater; or every entry equals the pivot |
| `Partitioning.Partition` | dep/bzip2/blocksort.c:135-160 | equal entries gather at both ends |
| `Partitioning.GatherLow` | dep/bzip2/blocksort.c:164-167 | swapping the shorter of two blocks brings the equal entries to the middle |
| `BlockSort.SortBlock` | dep/bzip2/blocksort.c:1031-1089 | short blocks, long blocks and blocks the main sort gives up on all end in rotation order with rotation 0 found |
| `BlockSort.ByMainSort` | dep/bzip2/blocksort.c:1068-1075 | a budget not spent means that rotations are in order; it is not spent if twelve characters tell any two rotations apart |
| `MainSort.Sort` | dep/bzip2/blocksort.c:751-1011 | if the budget is not spent, ptr lists every rotation once, in order; the block is untouched either way; assertions 1001, 1002, 1006 and 1007 hold; it gives up only if some two rotations agree on twelve characters: if none do, the budget is untouched |
| `MainSort.SortBig` | dep/bzip2/blocksort.c:868-1006 | one big bucket: quicksort what is left, scan, cache; buckets marked are in order, quadrants stay true; in the state left behind, for a bucket of 1 to 65534 rows, a smaller quadrant means a rotation that comes before exactly when the block is not a repetition of a shorter one |
| `MainSort.SortOthers` | dep/bzip2/blocksort.c:886-907 | step 1: small buckets of a big bucket but for the doubled character |
| `MainSort.SortSmall` | dep/bzip2/blocksort.c:889-905 | a small bucket not marked is quicksorted; marks mean order |
| `MainSort.ScanBucket` | dep/bzip2/blocksort.c:909-946 | step 2: every small bucket with ss in second place is in order without a comparison, and the two scans meet or the block is a single run |
| `MainSort.ScansMeet` | dep/bzip2/blocksort.c:937-944 | copyStart - 1 equals copyEnd for ss, or the block is one run: assertion 1007 |
| `MainSort.UpdateQuadrants` | dep/bzip2/blocksort.c:989-1004 | ranks of the bucket, coarse enough for sixteen bits, become its quadrants, with no shift in a bucket of up to 65534 rows; quadrants still tell the truth, and the comment beside them is right about this bucket exactly when the number of times the block has its shortest part divides the width of the shift |
| `QuadrantCache.CachedTrue` | dep/bzip2/blocksort.c:957-985 | a smaller quadrant at equal characters means a rotation that is not greater (the comment says it precedes, which equal rotations do not) |
| `QuadrantClaim.PrecedesExactly` | dep/bzip2/blocksort.c:964-985 | of a bucket just cached, a smaller quadrant means a rotation that comes before, as the comment has it, exactly when the number of times the block has its shortest part divides the width of the shift, or the bucket is no larger than that width |
| `QuadrantClaim.UnshiftedExactly` | dep/bzip2/blocksort.c:964-985 | with no shift and anything in the bucket: exactly when the block is not a repetition of a shorter one |
| `QuadrantClaim.PrecedesUnlessRepeated` | dep/bzip2/blocksort.c:964-985 | so the comment is right, whatever the shift, about every block that is not a repetition of a shorter one |
| `QuadrantClaim.RowsInRuns` | dep/bzip2/blocksort.c:989-1004 | the rows of a big bucket fall into stretches of equal rotations, each as long as the number of times the block has its shortest part |
| `QuadrantClaim.EqualsCounted` | dep/bzip2/blocksort.c:989-1004 | every rotation has as many equals among the rows of its bucket as the block has copies of its shortest part |
| `QuadrantClaim.PrecedesFails` | dep/bzip2/blocksort.c:964-985 | a family of inputs: a block that is some bytes twice over, the first of which comes nowhere else in them; its two equal rotations get the quadrants 0 and 1, and the comment is wrong |
| `EqualRuns.Runs` | dep/bzip2/blocksort.c:989-1004 | an ascending sequence in which every value occurs equally often is cut into stretches of that length, and two entries are equal exactly when they are in one stretch |
| `Repetitions.EqualExactly` | dep/bzip2/blocksort.c:964-985 | two rotations are equal exactly when they begin at the same place of the shortest part the block repeats |
| `Repetitions.OneCopy` | dep/bzip2/blocksort.c:964-985 | the block has its shortest part once exactly when it is not a repetition of a shorter one |
| `Repetitions.EqualRotationsRepeat` | dep/bzip2/blocksort.c:964-985 | a block with two equal rotations is a repetition of a shorter one |
| `MainSort.AllInOrder` | dep/bzip2/blocksort.c:868-1006 | all buckets in order make all rotations in order |
| `MainSort.FillStarts` | dep/bzip2/blocksort.c:919-922 | where the scans start filling |
| `MainSort.MarkAll` | dep/bzip2/blocksort.c:946-946 | marks exactly the buckets with ss in second place |
| `BucketOrder.RunningOrder` | dep/bzip2/blocksort.c:837-860 | Shell's sort lists every big bucket once, from the least to the most full |
| `BucketOrder.InsertBucket` | dep/bzip2/blocksort.c:848-858 | one gapped insertion |
| `PointerScan.Scan` | dep/bzip2/blocksort.c:923-934 | either scan, on any block: predecessors land in their buckets in order, none is lost, and there is always room |
| `PointerScan.Send` | dep/bzip2/blocksort.c:923-928 | a predecessor goes to the next free slot of its bucket unless that bucket is done |
| `PointerScan.ScanNext` | dep/bzip2/blocksort.c:923-934 | one row scanned keeps the whole state of the scan |
| `PointerScan.BucketFull` | dep/bzip2/blocksort.c:923-934 | after both scans every bucket of ss is full with exactly its members |
| `PointerScan.FilledSorted` | dep/bzip2/blocksort.c:917-944 | those buckets are in order |
| `PointerScan.StillGrouped` | dep/bzip2/blocksort.c:917-944 | ptr is still a permutation with every rotation in its bucket |
| `PointerScan.OthersSorted` | dep/bzip2/blocksort.c:917-944 | all other buckets are as they were |
| `PointerScan.RunSorted` | dep/bzip2/blocksort.c:937-944 | a block that is one run is in order as it is and nothing moves |
| `ScanOrder.FedComplete` | dep/bzip2/blocksort.c:923-934 | a scan that feeds on what it finds sees every rotation on its side |
| `ScanOrder.PlacedListed` | dep/bzip2/blocksort.c:923-928 | predecessors of rotations in order are in order, each once |
| `ScanOrder.AgainstBack` | dep/bzip2/blocksort.c:917-944 | one more ss in front keeps a rotation on its side of the endless run |
| `ScanSlots.AnyRoom` | dep/bzip2/blocksort.c:923-934 | both scans together never put more into a bucket than belongs there |
| `ScanSlots.BaseOnce` | dep/bzip2/blocksort.c:886-934 | after step 1 the scan starts from rotations in order |
| `SmallBuckets.CountPairs` | dep/bzip2/blocksort.c:770-792 | two-character frequencies, with the shifting pair register |
| `SmallBuckets.SumUp` | dep/bzip2/blocksort.c:803-803 | running sums |
| `SmallBuckets.Fill` | dep/bzip2/blocksort.c:805-830 | every rotation lands in the small bucket of its first two characters, each once |
| `SmallBuckets.Overshoot` | dep/bzip2/blocksort.c:795-798 | characters and quadrants are repeated behind the block |
| `MainQSort.MainQSort3` | dep/bzip2/blocksort.c:621-717 | sorts a range whose entries agree on d characters, or spends the budget; terminates; the stack holds at most 36 of 100 entries; no entry is compared with itself, so nothing is paid where twelve characters tell |
| `MainQSort.SortOrPart` | dep/bzip2/blocksort.c:648-694 | a range is sorted, found all equal at depth d, or split |
| `MainQSort.PartsReplace` | dep/bzip2/blocksort.c:696-715 | less, equal and greater parts replace the range, the equal part one character deeper |
| `MainQSort.WorkShrinks` | dep/bzip2/blocksort.c:644-716 | every range popped lowers the work left |
| `MainQSort.HalvesPush` | dep/bzip2/blocksort.c:706-715 | longest first: two entries further up, at most half the positions |
| `MainQSort.Med3` | dep/bzip2/blocksort.c:583-592 | the result is the middle one of the three characters |
| `MainSimpleSort.SimpleSort` | dep/bzip2/blocksort.c:485-555 | Shell's sort with the increments below the range size sorts, or spends the budget |
| `MainSimpleSort.Pass` | dep/bzip2/blocksort.c:504-554 | one pass permutes; with gap one it sorts |
| `MainSimpleSort.Insert` | dep/bzip2/blocksort.c:511-522 | one gapped insertion by comparisons from depth d |
| `MainCompare.MainGtU` | dep/bzip2/blocksort.c:347-469 | the answer agrees with the order of the rotations, equal ones either way; every read stays within the block and its overshoot, and the comparison ends; nothing is paid for a comparison that twelve characters decide |
| `MainCompare.CompareTwelve` | dep/bzip2/blocksort.c:359-406 | twelve characters without quadrants |
| `MainCompare.CompareEight` | dep/bzip2/blocksort.c:410-459 | eight characters each with its quadrant |
| `MainCompare.QuadrantsDecide` | dep/bzip2/blocksort.c:408-468 | different quadrants at equal characters decide the whole comparison |
| `RotationRanks.RanksExist` | dep/bzip2/blocksort.c:347-469 | the order of rotations is a total preorder given by numbers |
| `Rotations.CmpSaturates` | dep/bzip2/blocksort.c:347-469 | equal on n characters means equal for ever |
| `BlockCrc.LookupIsDivision` | dep/bzip2/bzlib_private.h:167-172 | one table lookup equals eight steps of division |
| `BlockCrc.ShiftLinear` | dep/bzip2/bzlib_private.h:167-172 | moving on is linear over GF(2) |
| `BlockCrc.PolynomialTerms` | dep/bzip2/bzlib_private.h:157-172 | the pattern has bit e for exactly the exponents e of the polynomial of the CRC-32 |
| `CrcRemainder.BlockCrcIsRemainder` | dep/bzip2/bzlib_private.h:157-172 | the register is the remainder on division by that polynomial of 32 ones and the bytes, each with its highest bit first |
| `Adler.Adler32` | dep/zlib/adler32.c:65-133 | equals the definition of section 2.2 of RFC 1950 for every buffer and valid start; no sum leaves 32 bits |
| `Adler.AddBytes` | dep/zlib/adler32.c:104-129 | 5552 bytes without reduction stay below 2^32 |
| `Adler.Mod28` | dep/zlib/adler32.c:35-39 | equals the remainder on its range |
| `Adler.Mod` | dep/zlib/adler32.c:40-44 | equals the remainder on 32 bit values |
| `Adler.Mod63` | dep/zlib/adler32.c:45-57 | equals the remainder on 63 bit values |
| `Adler.Adler32Next` | dep/zlib/adler32.c:65-133 | checksums may be taken piece by piece |
| `Adler.Adler32Combine` | dep/zlib/adler32.c:136-162 | of two valid checksums and the second length: the checksum of the concatenation; a negative length gives the error value |
| `Crc32.UpdateConcat` | dep/zlib/crc32.c:204-236 | checksums may be taken piece by piece |
| `Crc32.CombineLaw` | dep/zlib/crc32.c:355-408 | moving the first checksum past the second piece and adding the second gives the checksum of both |
| `Crc32.ZerosLinear` | dep/zlib/crc32.c:326-341 | appending zero bits is linear over GF(2) |
| `Crc32.PolynomialTerms` | dep/zlib/crc32.c:97-108 | the pattern has bit 31 - e for exactly the exponents e listed |
| `Polynomials.RemainderUnique` | dep/zlib/crc32.c:65-83 | division by hand leaves the only polynomial of degree below 32 that differs from the dividend by a multiple of the divisor |
| `Polynomials.RemainderLeft` | dep/zlib/crc32.c:65-83 | and that it does |
| `CrcRemainder.RegisterIsRemainder` | dep/zlib/crc32.c:65-83 | the register after any bytes is the remainder of what it began with and the message, each byte with its lowest bit first |
| `CrcRemainder.UpdateIsRemainder` | dep/zlib/crc32.c:204-236 | the checksum carried on over any bytes is that remainder, complemented before and after |
| `CrcRemainder.CheckValue` | dep/zlib/crc32.c:204-236 | the checksum of the text 123456789 is cbf43926 |
| `CrcTables.Lookup` | dep/zlib/crc32.c:200-200 | one lookup equals eight bit-serial steps of section 8 of RFC 1952 |
| `CrcTables.WordIsFourBytes` | dep/zlib/crc32.c:241-243 | four lookups in four tables equal four byte steps |
| `CrcTables.SwapParts` | dep/zlib/crc32.c:281-283 | a byte-swapped register keeps the correspondence |
| `CrcRoutines.MakeCrcTable` | dep/zlib/crc32.c:90-133 | by the pattern made out of the terms of the polynomial: table k holds a byte followed by k zero bytes, tables 4 to 7 the same reversed |
| `CrcRoutines.MakePattern` | dep/zlib/crc32.c:97-108 | the loop over the exponents makes the pattern with bit 31 - e for exactly the exponents e |
| `CrcRoutines.Crc32Bytes` | dep/zlib/crc32.c:227-235 | byte-wise routine equals the bit-serial checksum |
| `CrcRoutines.Crc32Little` | dep/zlib/crc32.c:247-278 | word-wise routine equals it for every buffer, alignment and start |
| `CrcRoutines.Crc32Big` | dep/zlib/crc32.c:287-320 | and so does the one on a swapped register |
| `CrcCombine.MatrixTimes` | dep/zlib/crc32.c:327-341 | applies the operator: moves a register by the operator's number of zero bits |
| `CrcCombine.MatrixSquare` | dep/zlib/crc32.c:344-352 | the square moves twice as far |
| `CrcCombine.OneZeroBit` | dep/zlib/crc32.c:369-375 | the first operator moves by one bit |
| `CrcCombine.MoveOn` | dep/zlib/crc32.c:385-403 | two matrices taking turns move by 8 * len2 bits |
| `CrcCombine.Crc32Combine` | dep/zlib/crc32.c:355-408 | equals the checksum of the concatenation for all x and non-empty y; nothing changes for lengths not positive |
| `DeflateEngines.Deflate` | dep/zlib/deflate.c:897-945 | from the state a reset leaves, for any of the four compressors, window size, hash size, buffer size and search limits, and any sequence of calls, chunks and flushes, full flushes included: the tokens expand to exactly the input passed (up to strstart, or strstart - 1 while a lazy match is pending), and to all input when the last call is done; those recorded since the last full flush stand for the input since then by themselves; no match reaches past the window less a margin; with room for every block, all input given has been handed on after any call that asks for a flush; runs record matches of distance one only, and literals-only records none |
| `DeflateEngines.Run` | dep/zlib/deflate.c:897-945 | the same from any state without data that the compressor keeps; the result of the last call says exactly why it stopped |
| `DeflateEngines.OneCall` | dep/zlib/deflate.c:897-945 | one call with any flush keeps the invariant of its compressor and takes input in order; after a full flush has done its work history is forgotten, and the section it closed stands for all input since the one before; the result says exactly why a call stopped |
| `DeflateEngines.Compress` | dep/zlib/deflate.c:903-905 | the compressor of a level or strategy keeps its invariant, takes input in order, and has handed on all of it when it does not ask for more; a call stops short of the work asked for only when a block finds the output full, or when no flush is asked for, all input is taken and too little lies ahead, so with room for output any other call hands on everything given |
| `DeflateEngines.BeginSection` | dep/zlib/deflate.c:931-937 | the end of a full flush: with the hash cleared and strstart, block_start and insert zero over a window that keeps its bytes, every compressor may go on, and no later match reaches back over this point |
| `DeflateWindow.DeflateState.ForgetHistory` | dep/zlib/deflate.c:931-937 | the hash is cleared, and with nothing ahead the window is used from its beginning again |
| `DeflateWindow.DeflateState.ClearHash` | dep/zlib/deflate.c:196-198 | with all heads gone no string is on a chain, whatever the links say |
| `DeflateChains.Forgotten` | dep/zlib/deflate.c:196-198 | no chain is left when all heads are gone, at any position of the window |
| `Lz77.SectionsJoin` | dep/zlib/deflate.c:931-937 | tokens that stay within themselves stand for the same text wherever they come |
| `DeflateEngines.DeflateFast` | dep/zlib/deflate.c:1628-1722 | tokens stand for the input up to strstart |
| `DeflateEngines.DeflateSlow` | dep/zlib/deflate.c:1730-1853 | tokens stand for the input up to strstart, or strstart - 1 while a match is pending, even when the window has slid past the start of that match |
| `DeflateEngines.DeflateRle` | dep/zlib/deflate.c:1861-1928 | the same, and all matches are of distance one |
| `DeflateEngines.DeflateHuff` | dep/zlib/deflate.c:1934-1967 | the same, and all tokens are literals |
| `DeflateEngines.SlowRound` | dep/zlib/deflate.c:1752-1837 | one position of the lazy compressor: it records the match held unless the search here comes to a longer one, or the byte before if one is pending, and holds on to what the search came to; a search is made exactly if the match held is not long enough, and its result is dropped exactly if it is short and filtered, or of length three and too far |
| `DeflateEngines.LazyMatch` | dep/zlib/deflate.c:1790-1813 | the match held is recorded with the right distance and its strings entered |
| `DeflateEngines.FastStep` | dep/zlib/deflate.c:1649-1711 | one position of the fast compressor: a match with one of the strings searched, as long as it goes, that none of them outdoes unless it is nice enough, or the byte if none of them makes a match |
| `DeflateEngines.FastRound` | dep/zlib/deflate.c:1649-1712 | the same, and a block goes out when the buffers are full |
| `DeflateEngines.RleRound` | dep/zlib/deflate.c:1883-1912 | a match of distance one as long as the byte before repeats, or the byte if that is less than three |
| `DeflateEngines.HuffRound` | dep/zlib/deflate.c:1951-1957 | the byte, always |
| `DeflateEngines.FastMatch` | dep/zlib/deflate.c:1668-1704 | a match recorded and passed, its strings entered or skipped |
| `DeflateEngines.Search` | dep/zlib/deflate.c:1762-1786 | a match found is a true repetition within reach; what the search comes to, and when it is not made or dropped |
| `DeflateEngines.InsertRest` | dep/zlib/deflate.c:1682-1690 | every string of a short match is entered |
| `DeflateEngines.SkipMatch` | dep/zlib/deflate.c:1694-1697 | the hash restarted after a long match is right for the next string |
| `DeflateEngines.InsertUpTo` | dep/zlib/deflate.c:1804-1813 | strings are entered as far as whole strings go |
| `DeflateEngines.RunLengthHere` | dep/zlib/deflate.c:1883-1900 | the run found is a repetition at distance one, never past the input, and no longer one of three or more is there |
| `DeflateEngines.Prepare` | dep/zlib/deflate.c:1641-1647 | lookahead, end of input, or a request for more |
| `DeflateEngines.FinishCall` | dep/zlib/deflate.c:1714-1721 | the last tokens go out and left-over strings are remembered; the result says whether the output was full |
| `DeflateEngines.FlushBlockOnly` | dep/zlib/deflate.c:1538-1546 | the block handed on covers exactly the input its tokens stand for |
| `DeflateEngines.TokenBuffer.TallyLit` | dep/zlib/deflate.h:323-329 | records one literal; full exactly at lit_bufsize - 1 |
| `DeflateEngines.TokenBuffer.TallyDist` | dep/zlib/deflate.h:330-339 | records one match; distance and length fit their cells |
| `DeflateMatch.LongestMatch` | dep/zlib/deflate.c:1148-1289 | a match longer than asked for is a true repetition within MAX_DIST, never longer than the input, although the third byte is never compared; of all strings on the chain that a search may visit, within reach and as many as the chain length allows, none would do for a longer match, unless the one found is nice enough to stop at; and the match goes as far as it can |
| `DeflateMatch.TryMatch` | dep/zlib/deflate.c:1243-1283 | one string looked at: it is taken exactly if it does better, and none looked at so far goes further |
| `DeflateMatch.FollowChain` | dep/zlib/deflate.c:1284-1285 | on to the next string that is to be looked at, or all have been |
| `DeflateMatch.NoneLongerHere` | dep/zlib/deflate.c:1148-1289 | what the window says of the longest match is so of the input |
| `DeflateMatch.CompareRun` | dep/zlib/deflate.c:1253-1269 | the run compared in steps of eight equals byte by byte comparison |
| `DeflateMatch.NextOnChain` | dep/zlib/deflate.c:1284-1285 | chain walks above the limit visit strictly earlier positions of the same hash |
| `DeflateHash.ThirdByte` | dep/zlib/deflate.c:1214-1216 | equal hashes and equal first two bytes force an equal third byte |
| `DeflateHash.HashForgets` | dep/zlib/deflate.c:167-167 | three bytes determine the hash whatever it was before |
| `DeflateHash.AllSizesGood` | dep/zlib/deflate.c:162-167 | so for every hash size from 8 to 16 bits |
| `DeflateHash.HashInRange` | dep/zlib/deflate.c:167-167 | a hash is an index into its table |
| `DeflateChains.Inserted` | dep/zlib/deflate.c:186-189 | INSERT_STRING keeps every chain strictly descending with one hash |
| `DeflateChains.Slid` | dep/zlib/deflate.c:1432-1448 | sliding head and prev keeps every chain above the limit |
| `DeflateChains.Followed` | dep/zlib/deflate.c:1284-1285 | a link followed within reach is an earlier string of the chain |
| `DeflateChains.SameChainThirdByte` | dep/zlib/deflate.c:1249-1254 | strings on one chain that agree in two bytes agree in three |
| `DeflateWindow.DeflateState.FillWindow` | dep/zlib/deflate.c:1390-1532 | the window equals the tail of the input read; strstart stays within window_size - MIN_LOOKAHEAD; absolute positions do not move; at least two bytes of room for each read |
| `DeflateWindow.DeflateState.Slide` | dep/zlib/deflate.c:1419-1451 | the upper half moves down and everything that names a position with it |
| `DeflateWindow.DeflateState.Reinsert` | dep/zlib/deflate.c:1471-1489 | strings left over from the last call are entered |
| `DeflateWindow.DeflateState.ReadBuf` | dep/zlib/deflate.c:1076-1101 | takes what fits, in order |
| `DeflateWindow.DeflateState.InsertString` | dep/zlib/deflate.c:186-190 | a string becomes the head of its chain, linked to the former head, which is returned; nothing else changes in the tables |
| `DeflateWindow.DeflateState.ZeroAhead` | dep/zlib/deflate.c:1503-1528 | bytes a search may look at past the input are cleared |
| `DeflateWindow.DeflateState.constructor` | dep/zlib/deflate.c:1106-1132 | empty tables, nothing read |
| `Lz77.MatchExpands` | dep/zlib/deflate.h:330-339 | tokens that stand for the text up to p, and a true match there, stand for the text past it |
| `Lz77.CopyFollowsText` | dep/zlib/inffast.c:186-285 | copying byte by byte follows any text that repeats itself there, overlap included |
| `InflateFast.InflateFast` | dep/zlib/inffast.c:67-324 | under its entry assumptions: the bits read are exactly the symbols decoded, the output is the text they stand for, a distance is accepted exactly up to whave and what has been written, it stops for want of input or room, at the end of the block, or at the first fault; fewer than eight bits are kept, and no bit is lost |
| `InflateFast.FastRound` | dep/zlib/inffast.c:120-307 | one iteration takes at most six bytes and writes at most 258 |
| `InflateFast.FastStore` | dep/zlib/inffast.c:133-285 | a literal or match written is the text continued |
| `InflateFast.ProgressGoesOn` | dep/zlib/inffast.c:120-307 | one more symbol kept, or the reason for stopping |
| `InflateCopy.FastCopyOld` | dep/zlib/inffast.c:216-255 | the part of a match that lies in the window, in its three layouts |
| `InflateCopy.FastCopy` | dep/zlib/inffast.c:186-285 | all four source layouts write out[n] = out[n-dist] over window and output, overlap and wrap included |
| `InflateCopy.CopiedIsMatch` | dep/zlib/inffast.c:186-285 | bytes placed that way are the match of section 3.2.3 of RFC 1951 |
| `InflateCopy.CopyRun` | dep/zlib/infback.c:600-602 | one byte after the other upwards, also over itself |
| `InflateSymbols.FastItem` | dep/zlib/inffast.c:121-306 | one symbol out of at most six bytes; exactly its bits are used |
| `InflateSymbols.FastSymbol` | dep/zlib/inffast.c:127-133 | two-level lookup |
| `InflateSymbols.FastDistance` | dep/zlib/inffast.c:158-185 | distance code and extra bits |
| `InflateSymbols.SlowItem` | dep/zlib/infback.c:492-576 | one symbol without taking a byte it does not need; starved only when the input ends inside it |
| `InflateSymbols.SlowSymbol` | dep/zlib/infback.c:493-508 | a code found with zeros for bits not yet held is the right one, and fewer than eight bits stay |
| `InflateSymbols.NeedBits` | dep/zlib/infback.c:183-187 | enough bits, or the input is short of them |
| `InflateBack.DecodeBlock` | dep/zlib/infback.c:481-604 | any mix of fast stretches and single symbols decodes the same symbols from the same bits; the text handed over plus the window is the text they stand for while they are near, and they all are unless a fast stretch was entered with a window neither empty nor full, or full but smaller than 32768 |
| `InflateBack.Step` | dep/zlib/infback.c:492-604 | one symbol read and stored, or exactly why not |
| `InflateBack.Hurry` | dep/zlib/infback.c:482-490 | a fast stretch straight into the circular window accepts a match exactly up to what the window is taken to hold at its entry plus all written in this round, and all it accepts is near if it begins with an empty window or with a full one of 32768 bytes or more |
| `InflateReach.FirstMatch` | dep/zlib/infback.c:482-490 | a match that comes first in a stretch is accepted exactly up to twice what the first round has written, or up to the window and what this round has written in a later one, whatever the text holds |
| `InflateReach.TightExactly` | dep/zlib/infback.c:482-490 | in a window of at most 32768 bytes everything a stretch may accept is within the text and the window exactly when it begins with an empty window, or with a full one of 32768 bytes |
| `InflateReach.FarAccepted` | dep/zlib/infback.c:482-490 | an input that shows it: a fresh inflater over any window of at most 32768 bytes, given the byte 13 and zeros, reads a literal and then, with a text of one byte, reads and writes a match of distance two |
| `InflateBack.FirstRoundNear` | dep/zlib/infback.c:482-490 | a stretch from the beginning of the first round accepts only distances within the text |
| `InflateBack.LaterRoundNear` | dep/zlib/infback.c:482-490 | a stretch in a later round of a window of 32768 bytes does so too |
| `InflateBack.BackState.CopyMatch` | dep/zlib/infback.c:585-603 | the circular copy loop writes the match, over any number of window flushes |
| `InflateBack.BackState.CopyStretch` | dep/zlib/infback.c:586-603 | one stretch ahead in the window or right behind |
| `InflateBack.BackState.Room` | dep/zlib/infback.c:210-221 | handing over a full window keeps the text |
| `InflateBack.BackState.ReachIs` | dep/zlib/infback.c:577-582 | distances accepted are those within the text still kept |
| `BitReservoir.Reservoir.PullByte` | dep/zlib/infback.c:172-178 | a byte enters above the bits held; 32 bits are never exceeded |
| `BitReservoir.Reservoir.Drop` | dep/zlib/infback.c:194-198 | bits leave from below |
| `BitReservoir.Reservoir.GiveBack` | dep/zlib/inffast.c:309-313 | whole unused bytes go back and no bit is lost |
| `InflateFormat.SymbolIsLocal` | dep/zlib/inftrees.h:24-37 | the codes of a well-formed table are prefix free |
| `InflateFormat.NextFits` | dep/zlib/inffast.c:56-65 | a match is 3 to 258 long, reaches 1 to 32768 back and takes at most 48 bits |
| `InflateFormat.ReadsUnique` | dep/zlib/inffast.c:118-307 | bits spell no more than one run of symbols |
| `InflateFormat.ReadsPrefix` | dep/zlib/inffast.c:118-307 | where a run ends at no literal or match, any other run from the same place is the beginning of it |
| `InflateFormat.BlockSettled` | dep/zlib/inffast.c:297-301 | so the symbols before the end of a block are settled, and so is where they end |
| `InflateFormat.ReadsIsLocal` | dep/zlib/inffast.c:118-307 | bits past the symbols do not matter |
| `InflateFormat.ReadsJoin` | dep/zlib/inffast.c:118-307 | runs may be decoded piece by piece |
| `InflateFormat.SmallestTablesWork` | dep/zlib/inftrees.h:24-47 | well-formed tables exist and decode |
| `InflateReach.LinkedTablesWork` | dep/zlib/inftrees.h:24-36 | and so do some with a second level |
| `InflateReach.FlatTablesWork` | dep/zlib/inftrees.h:24-47 | and so do some with both codes of a literal and an end looked up by two bits |
| `InflateReach.FlatStream` | dep/zlib/infback.c:482-490 | what the byte 13 says by those tables: a literal, and then a match of length three and distance two |
| `InflateReach.FarStream` | dep/zlib/inftrees.h:24-36 | a stream decoded through both levels, symbol by symbol |
| `RoundTrip.InflatedIsData` | dep/zlib/inffast.c:67-324 | tokens recorded for data by the compressor, read back by an inflater with a window at least as large as their reach, leave data |
| `RoundTrip.BitsCarryData` | dep/zlib/inffast.c:67-324 | bits that carry the tokens of data up to the end of a block carry nothing else, and no reader that goes on as long as there are symbols stops elsewhere |
| `RoundTrip.InflateBlock` | dep/zlib/infback.c:481-604 | a block of near symbols that is in the input to its end is decoded to its end by any mix of fast stretches and single symbols: no fault is found, the input does not run out, the text grows by what the symbols stand for, and the bits used are those of the block |
| `RoundTrip.InflateData` | dep/zlib/infback.c:481-604 | tokens the compressor recorded for data, carried by any well-formed code and decoded from an empty text by a window as large as their reach, leave data |
| `RoundTrip.NoFault` | dep/zlib/infback.c:530-582 | in such a block no code is bad and no distance too far |

## Left out

Deliberately weaker than the source, or under conditions:

- HuffmanLengths.MakeCodeLengths: needs a limit of at least 12 (the compressor uses 17) and frequencies with a sum below 2^23; a block has at most 900001 symbols.
- BlockCodec.ChooseTables: which table a group uses, and how tables are refined by cost, is left open; any choice decodes, and only the size depends on it.
- BlockCodec.AssignGroups: the choice of a table for a group is arbitrary, as above.
- BlockCodec.SendBlock: the block is copied to storage with room for the overshoot before it is sorted, and the sorters' arrays are separate ones where the C code lets arr1 and arr2 overlap.
- BlockCodec.SendSorted: sorted pointers are laid out in sixteen-bit cells first, so that overwriting in place can be stated; the C code has them there already.
- BlockCodec.ReceiveBlock: a randomised block is refused later, in `DecompressStream`; the table of random numbers is not part of this model. After a store past the selector arrays nothing is claimed but that it has been reported.
- BlockCodec.ReceiveTablesPart: an overrun is reported, and where it comes from is stated by `BlockCodec.ReceiveSelectorPart` alone.
- DecompressStream.DState.BzDecompress: all input is given at the start; stopping in the middle of a symbol for want of input, and going on later from saved variables, is not modelled. Running out is reported as such, and calls after that are not described.
- Buffers.BuffToBuffDecompress: running out of input is told apart from bad data, but that every truncated stream ends that way is not stated.
- Buffers.BuffToBuffCompress: how much room is enough is not stated; 'full' means that all room was used.
- InverseSmall.SmallTable.constructor: the column is copied into the sixteen-bit cells once, where the C code stores it there from the start.
- FallbackSort.Sort: the class array is separate from the block, which is still taken as lost and rebuilt; the two share storage in the C code.
- FallbackQSort.QSort3: class numbers are passed as a sequence, since the sorter only reads them.
- DeflateEngines.FlushBlockOnly: the coding of a finished block is not part of this model; its buffers start afresh, and whether the caller's output is full after it is an arbitrary function of the number of blocks.
- DeflateEngines.DeflateFast: what is recorded at one place is stated by `DeflateEngines.FastRound`, for the tables as they are then; nothing of the kind is stated of the tokens of a whole run.
- DeflateEngines.DeflateSlow: the same, with `DeflateEngines.SlowRound`.
- DeflateMatch.LongestMatch: the byte-wise search; the variants that compare two bytes at once (UNALIGNED_OK) or look at one candidate only (FASTEST) are not modelled.
- DeflateHash.AllSizesGood: hash sizes of 8 to 16 bits, which memory levels 1 to 9 give.
- InflateFast.InflateFast: the build without INFLATE_STRICT and with `sane` set; decoding tables are any well-formed ones (`InflateFormat.Usable`), since `inftrees.c` is not part of this model.
- InflateBack.DecodeBlock: after a fast stretch that was entered with a window neither empty nor full, or full but smaller than 32768, the text is claimed only if all distances were near; `InflateBack.Hurry` says exactly which others are accepted, but not what bytes they copy.
- InflateBack.Hurry: what a match beyond the text copies is not described, since the window's bytes are arbitrary there.
- InflateBack.BackState.Room: a write refused by the caller leaves the state as it is and ends the call; bytes of a match copied before that are not described.
- Adler.Adler32Combine: both checksums must be valid (each half below 65521), and a second length below 2^63.
- Adler.Adler32: the null buffer, which asks for the initial value, is not modelled; the starting checksum must be valid.
- CrcRoutines.MakeCrcTable: tables are generated at run time; the precomputed ones are not part of this model.
- InflateFormat.ReadsUnique: bits are a number whose lowest bit comes first, so the input ahead is never exhausted in the specification; running out is a matter of the readers.

Not modelled:

- Allocation, verbosity, the FILE and gz layers, and 64-bit totals of bytes.
- Block headers, stored blocks and dynamic tables of deflate streams (`trees.c`, `inflate.c`, `inftrees.c`), header and trailer framing, `deflate_stored`, `deflateParams` and dictionaries.
- Formatting of numbers, random numbers, the SOAP glue, vector mathematics and the configuration merger: nothing there goes beyond single functions.
