# Bitshuffle, LZ4 and message handling of the BSREAD library

The library moves channel data between hosts: a channel value is written in its byte order, bit-transposed in
blocks, compressed with LZ4, framed with a small header, sent as message parts, and taken apart again by a
receiver that caches data headers and filters message identifiers. This project models that path and proves what
it promises. Each file is one module.

- `Lz4Format` says what an LZ4 block is and what data it stands for, and `Lz4Greedy` which parse of a source the
  compressor follows: the positions its accelerating search tries, the match it takes, and how far it reaches;
  `Lz4Repeats` is a law about the sequences of that parse that does not mention how they are searched.
  `Lz4Count`, `Lz4Compress`, `Lz4Copy` and `Lz4Decompress` are the compressor and the decoders on arrays, proved
  against both, and `Lz4RoundTrip` puts them together. The hash is a parameter: every result about the
  compressor holds for any function from four bytes to the slots of the table.
- `EightByEight`, `ByteTranspose` and `BitTranspose` are the scalar transposes, `Simd`, `SseByteTranspose` and
  `SseBitTranspose` the SSE2 ones with registers of sixteen bytes. Both are proved against the same relation, and
  `BitMatrix` shows that the relation is the plain bit-matrix transpose and determines either side from the other.
- `IoChain` and `IoChainProgress` are the ring of pointer slots with its locks, as a step system over any number of
  threads; `ChainSerial` is the same chain as compiled without OpenMP.
- `BlockCodec`, `BlockedDriver` and `BitshuffleLz4` are the block functions, the driver over a whole buffer and the
  public compress and decompress. `ParallelBlocks` shows that the parallel loop leaves the same output buffer, count
  and pointers as the serial one, and `ParallelDriver` that the whole driver around it stores what can be restored.
  `Framing` and `Channel` are the Rust side of the same path.
- `Basics`, `Bytes`, `Words`, `ByteOrder` and `Matrix` hold what the others share: arithmetic, bytes as bits, machine
  words, byte orders, and buffers seen as matrices.
- `Containers`, `MessageCache` and `Receiver` are the bounded map and queue, header caching, and the receiver;
  `HeaderChanges` says when a receiver counts header changes right, and `Verdicts` what a run of it delivers, refuses
  and counts.

Properties that do not hold always are stated with the condition under which they do, and with an input that fails:

- `BitshuffleLz4.RestorableExactly`: the stored form determines the buffer if and only if LZ4 accepts every block. A
  block above its limit is silently stored as four zero bytes, or cut off at its size modulo 2^32;
  `BitshuffleLz4.StoreOversize` is such a call.
- `Lz4Decompress.LegalUnlessZero`: what the safe decoder accepts is a legal block if and only if no offset is zero;
  `Lz4Decompress.AcceptsZeroOffset` is an accepted input that is not.
- `Framing.RoundTrip`: the input comes back if and only if its length is a multiple of the element size.
- `Channel.RawReadBackExactly`: a channel that was created raw reads back what was written if and only if it has as
  many elements as an element has bytes, or none.
- `Containers.CounterExact`: a queue of size zero counts drops that did not happen;
  `Containers.MiscountsAtSizeZero` is such a run.
- `HeaderChanges.MarksAreExact`: headers are marked right while no endpoint is removed; `HeaderChanges.RemovalForgets`
  is a run with a removal in which a mark is wrong.
- `Receiver.RangeCheckOverlaps`: disabling the range check also disables the positive and the monotonic check.

## Model

| member | source | states |
|---|---|---|
| Lz4Count.WordDiff | src/c/lz4/lz4.c:305-333 | bytes below NbCommonBytes of the xor of two loaded words agree and the byte there differs: the trailing-zero count finds the first difference |
| Lz4Count.Count | src/c/lz4/lz4.c:414-430 | returns the length of the longest common run of the two positions up to the limit, for every alignment of the 8/4/2/1 tail |
| Lz4Format.EncodingWithinBound | src/c/lz4/lz4.h:101 | no legal block, by whatever compressor, encodes to more than n + n/255 + 16 bytes |
| Lz4Format.KnownBytes | src/c/lz4/lz4.c:535-596 | 300 literals, a match of 24 bytes at offset 300 and five last literals are encoded as 0xFF, 255, 30, the literals, 44, 1, 5, 0x50, the last literals: nibbles of the token, length runs, and the offset with its low byte first |
| Lz4Format.PeriodicIsCopy | src/c/lz4/lz4.c:1013-1034 | a buffer in which every byte repeats the byte `offset` before it is the byte-by-byte overlapping copy |
| Lz4Compress.FindMatch | src/c/lz4/lz4.c:496-530 | finds exactly the first position of the accelerating search whose remembered position serves, and leaves exactly the table of the positions tried; matches are within 65535, and all stored positions stay below the current one and fit their entry width |
| Lz4Compress.CatchUp | src/c/lz4/lz4.c:532-533 | extends a match backwards by exactly the bytes that agree down to the anchor and the source start |
| Lz4Compress.EmitMatchLength | src/c/lz4/lz4.c:583-593 | adds the low bits to the token already written and appends exactly the extra length bytes; everything else before is kept |
| Lz4Compress.EncodeMatch | src/c/lz4/lz4.c:554-596 | after offset and length the output is the encoding of one more legal sequence, the input before the new anchor is represented, and the match could not have been longer |
| Lz4Compress.EncodeMatches | src/c/lz4/lz4.c:554-624 | the goto loop appends exactly the matches that directly follow each other in the parse, leaves the table of the parse, and keeps the output an encoding of what was consumed |
| Lz4Compress.CompressGeneric | src/c/lz4/lz4.c:433-643 | emits the encoding of a well-formed block whose meaning is the source, for the 16-bit and the 32-bit table, or 0 for refused sizes; its sequences are those of the greedy parse, pass over no repeat, and could not begin earlier or end later; from 14 equal bytes on, the result is 10 bytes and one more for every 255 from the 25th on, with any hash; every write, overshooting copies included, stays inside n + n/255 + 16 bytes |
| Lz4Compress.Compress | src/c/lz4/lz4.c:646-664 | with its own hash, picks the table by the 64 KiB limit and yields, for every accepted size, a well-formed maximal block of the source within the bound, with the sequences of the greedy parse, which pass over no repeat; equal bytes are stored in at most 11 + n/255 bytes; 0 for negative or too large sizes |
| Lz4Compress.CompressHashing | src/c/lz4/lz4.c:646-664 | the same for any two hash functions in place of the multiplicative ones; if the hash separates the four-byte groups of the source, a match begins no later than the first repeat of four bytes within 65 bytes behind every match and behind the start |
| Lz4Compress.EqualParse | src/c/lz4/lz4.c:496-533 | from 14 equal bytes on, a thorough and maximal block is one literal, one match up to the last five bytes, and these five |
| Lz4Repeats.SearchFinds | src/c/lz4/lz4.c:496-530 | the accelerating search finds a match no later than at the first place, up to 65 behind its start, whose four bytes repeat earlier ones, if no other bytes with their hash come between; it leaves all places that it has looked at to be found again |
| Lz4Repeats.FollowFinds | src/c/lz4/lz4.c:554-624 | matches directly behind a match are taken whenever the bytes there repeat known ones, and the two positions stored behind a match are found again |
| Lz4Repeats.GreedyFinds | src/c/lz4/lz4.c:485-624 | for every hash: at the start, behind every match and behind the last one, the next match begins no later than the first undisturbed repeat of four bytes that were looked at before, up to 64 KiB back; and no match could have begun one byte earlier |
| Lz4Repeats.RepeatsFound | src/c/lz4/lz4.c:496-530 | a hash that separates the groups of the source leaves every repeat undisturbed |
| Lz4Greedy.LongestIsForward | src/c/lz4/lz4.c:414-430 | the counted match length is the byte-by-byte length of the parse |
| Lz4Copy.WildCopy | src/c/lz4/lz4.c:294-294 | 8-byte steps leave exactly the wanted bytes before the end position, and overshoot it by fewer than eight bytes: all bytes from eight behind it on are unchanged |
| Lz4Copy.MultipleKeepsPeriod | src/c/lz4/lz4.c:1013-1034 | copying at any multiple of an established period keeps that period |
| Lz4Copy.StartMatch | src/c/lz4/lz4.c:1015-1025 | after the prologue eight bytes repeat with the offset, and the copy distance is a multiple of the offset, at least 8; only the offset zero leads to a distance of four |
| Lz4Copy.CopyMatchFast | src/c/lz4/lz4.c:1013-1034 | the table-driven prologue and the 8-byte copies compute the byte-by-byte copy for every offset from 1 on; the copy gives up exactly when the match leaves no room for the last five literals |
| Lz4Decompress.DecodeRound | src/c/lz4/lz4.c:917-1035 | one round parses one more sequence of any input and extends the output by it, or ends with the last literals, or fails; on a block that the decoder accepts it never fails and follows the block |
| Lz4Decompress.DecompressGeneric | src/c/lz4/lz4.c:878-1042 | any input in the safe form: every access stays inside the buffers, and the result is negative or the size of the one block that the whole input encodes, whose meaning the output is if no offset is zero; in both forms every acceptable block is decoded, and the used or produced length returned |
| Lz4Decompress.DecompressFast | src/c/lz4/lz4.c:1059-1062 | told the original size, returns the length of the block and restores the data, with anything behind the block |
| Lz4Decompress.DecompressSafe | src/c/lz4/lz4.c:1049-1052 | if and only if: an input is accepted exactly when it encodes a block that fits the capacity and whose sequences keep away from both ends; the result is the size of that block, and the output its meaning if no offset is zero |
| Lz4Decompress.LegalUnlessZero | src/c/lz4/lz4.c:962-963 | an input that can be read is the encoding of a legal block if and only if none of its offsets is zero |
| Lz4Decompress.AcceptsZeroOffset | src/c/lz4/lz4.c:962-963 | twelve bytes with a match of offset zero are accepted, although no legal block has that encoding |
| Lz4Decompress.ReadsUnique | src/c/lz4/lz4.c:878-1042 | an input is the encoding of at most one block, legal or not |
| Lz4Decompress.WellFormedAcceptable | src/c/lz4/lz4.c:878-1042 | every well-formed block, whichever compressor produced it, is accepted by both decoders at every capacity that it fits |
| Lz4RoundTrip.Unambiguous | src/c/lz4/lz4.c:878-1042 | two well-formed blocks of one size that both begin the same input are the same block |
| Lz4RoundTrip.RoundTrip | src/c/lz4/lz4.c:646-664 | for every source up to LZ4_MAX_INPUT_SIZE and any hash: compress, then fast and safe decoding both give the source, and the fast decoder uses exactly the bytes written |
| IoChain.StepKeepsInv | src/c/bitshuffle/iochain.c:42-89 | every lock, unlock, read and write of every thread keeps the invariant of the ring |
| IoChain.PointersAreSequential | src/c/bitshuffle/iochain.c:42-89 | in every interleaving the pointers given to an iteration are those of the sequential fold over all earlier iterations, although 33 slots are reused |
| IoChainProgress.AtMostRingSizeMinusOne | src/c/bitshuffle/iochain.c:42-57 | at most 32 iterations are past ioc_get_in at once |
| IoChainProgress.InSlotWriteIsSafe | src/c/bitshuffle/iochain.c:59-64 | in every run, when a thread writes an in slot, the only iteration that has still to read an in slot is the one the write is meant for, and it is still waiting for the lock |
| IoChainProgress.OutSlotWriteIsSafe | src/c/bitshuffle/iochain.c:80-89 | no out slot is overwritten while an iteration other than the intended reader needs it |
| IoChainProgress.OldestEnabled | src/c/bitshuffle/iochain.c:42-89 | the oldest unfinished iteration can always take its next step |
| IoChainProgress.Progress | src/c/bitshuffle/iochain.c:42-89 | no reachable state with work left is stuck |
| IoChainProgress.RunsComplete | src/c/bitshuffle/iochain.c:42-89 | runs are bounded by a measure, and a run that cannot go on has done every iteration once between the sequential pointers |
| ParallelBlocks.BlocksStandInOrder | src/c/bitshuffle/bitshuffle_core.c:1113-1118 | in every interleaving of the parallel block loop, with positions that depend on what a block finds at its input, a block stands exactly where the blocks before it end |
| ParallelBlocks.AllBlocksPlaced | src/c/bitshuffle/bitshuffle_core.c:1113-1118 | a parallel run that cannot go on has given every block the positions of the serial loop, and leaves the pointers behind the last block |
| ParallelBlocks.ParallelIsSerial | src/c/bitshuffle/bitshuffle_core.c:1113-1118 | in every interleaving of chain steps, single byte stores and additions to the reduction, a run that cannot go on leaves the serial output in the buffer, everything behind it unchanged, the count of the serial loop, and no error |
| ParallelBlocks.RunsEnd | src/c/bitshuffle/bitshuffle_core.c:1113-1118 | no run is longer than the steps of the chain, the bytes of the output and the blocks together |
| ParallelBlocks.Finishes | src/c/bitshuffle/bitshuffle_core.c:1113-1118 | every run can go on until nothing is left to do |
| ParallelBlocks.ErrorReported | src/c/bitshuffle/bitshuffle_core.c:1113-1118 | in every run the shared error is zero if no counted block has failed, and otherwise the negative count of one that has |
| ParallelDriver.FinishWrap | src/c/bitshuffle/bitshuffle_core.c:1098-1142 | from what any finished parallel loop leaves, the partial block and the leftover bytes complete the result of the serial driver, for compression and decompression |
| ParallelDriver.StoreParallel | src/c/bitshuffle/bitshuffle.c:147-151 | a parallel compression or shuffle leaves the stored form of the buffer |
| ParallelDriver.RoundTripParallel | src/c/bitshuffle/bitshuffle.c:147-158 | what a parallel compression has stored is decompressed to the data, with equal counts |
| EightByEight.SwappedAt | src/c/bitshuffle/bitshuffle_core.c:70-77 | the three mask-and-shift steps exchange bit c of byte r with bit r of byte c, for all 64 positions |
| EightByEight.TransBit8x8 | src/c/bitshuffle/bitshuffle_core.c:70-77 | the macro transposes the 8 x 8 bits of a word |
| ByteTranspose.TransByteElemRemainder | src/c/bitshuffle/bitshuffle_core.c:114-141 | columns from a start that is a multiple of eight hold the byte transpose, earlier ones are untouched; -80 otherwise |
| ByteTranspose.TransByteElemScal | src/c/bitshuffle/bitshuffle_core.c:145-149 | the plain byte transpose of size x elem_size |
| ByteTranspose.TransElem | src/c/bitshuffle/bitshuffle_core.c:189-202 | the transpose of a matrix of elements of any width |
| ByteTranspose.TransElemType | src/c/bitshuffle/bitshuffle_core.c:81-98 | the same transpose by the eight-row loops of the macro |
| ByteTranspose.TransBitrowEight | src/c/bitshuffle/bitshuffle_core.c:206-214 | regroups rows of size / 8 bytes in eights; -80 for sizes that are no multiple of eight |
| BitTranspose.TransBitByteRemainder | src/c/bitshuffle/bitshuffle_core.c:153-177 | from byte `start` on, bit k of eight neighbouring bytes is gathered in byte q of row k; earlier columns are untouched |
| BitTranspose.StagesTransposeBits | src/c/bitshuffle/bitshuffle_core.c:218-238 | byte transpose, bit gathering and row regrouping together are the bit transpose |
| BitTranspose.TransBitElemScal | src/c/bitshuffle/bitshuffle_core.c:218-238 | the output is the bit transpose of the input |
| BitTranspose.TransByteBitrowScal | src/c/bitshuffle/bitshuffle_core.c:242-261 | the transpose of the bit rows as bytes |
| BitTranspose.ShuffleBitEightelemScal | src/c/bitshuffle/bitshuffle_core.c:265-289 | every word of every group of eight elements is spread over the elements of the group |
| BitTranspose.StagesRestoreBits | src/c/bitshuffle/bitshuffle_core.c:293-310 | the two inverse stages leave a buffer whose bit transpose is their input |
| BitTranspose.UntransBitElemScal | src/c/bitshuffle/bitshuffle_core.c:293-310 | the output is the buffer whose bit transpose is the input |
| BitMatrix.BitTransposeIsPlain | src/c/bitshuffle/bitshuffle_core.c:218-238 | if and only if: the stored form relates to the input as bit (8j+k) * size + i to bit 8j+k of element i |
| BitMatrix.TransposeInjective | src/c/bitshuffle/bitshuffle_core.c:293-310 | only one buffer has a given bit transpose, so inverting it restores the original |
| BitMatrix.TransposeUnique | src/c/bitshuffle/bitshuffle_core.c:325-749 | a buffer has only one bit transpose, so all kernels that compute it agree byte for byte |
| BitMatrix.TransposeOnto | src/c/bitshuffle/bitshuffle_core.c:293-310 | every buffer of whole eights is the bit transpose of some buffer |
| SseByteTranspose.Unpack64 | src/c/bitshuffle/bitshuffle_core.c:410-453 | the 64-bit unpack network turns sixteen 8-byte elements into eight registers of one byte position each |
| SseByteTranspose.TransByteElemSse16 | src/c/bitshuffle/bitshuffle_core.c:325-353 | the byte transpose for 2-byte elements, remainder included |
| SseByteTranspose.TransByteElemSse32 | src/c/bitshuffle/bitshuffle_core.c:357-397 | the byte transpose for 4-byte elements, remainder included |
| SseByteTranspose.TransByteElemSse64 | src/c/bitshuffle/bitshuffle_core.c:401-466 | the byte transpose for 8-byte elements, remainder included |
| SseByteTranspose.HierarchyTransposes | src/c/bitshuffle/bitshuffle_core.c:498-520 | transposing chunks, their bytes, and the chunks again is the plain byte transpose |
| SseByteTranspose.TransByteElemSse | src/c/bitshuffle/bitshuffle_core.c:470-527 | the plain byte transpose for every element size, whichever branch is taken |
| Simd.ShiftOnce | src/c/bitshuffle/bitshuffle_core.c:550-556 | after one more 16-bit-lane shift every lane still holds the original bits one place higher; bits carried in from the neighbour stay below |
| SseBitTranspose.MaskGathers | src/c/bitshuffle/bitshuffle_core.c:550-556 | the movemask after kk shifts gathers bit 7 - kk of the sixteen bytes |
| SseBitTranspose.TransBitByteSse | src/c/bitshuffle/bitshuffle_core.c:532-561 | gathers the bits of bytes exactly as the scalar kernel does |
| SseBitTranspose.TransBitElemSse | src/c/bitshuffle/bitshuffle_core.c:565-584 | the output is the bit transpose of the input |
| SseBitTranspose.InterleaveEight | src/c/bitshuffle/bitshuffle_core.c:617-648 | the unpack network puts bytes i and i + 1 of eight rows side by side |
| SseBitTranspose.TransByteBitrowSse | src/c/bitshuffle/bitshuffle_core.c:589-691 | the transpose of the bit rows as bytes, remainder columns included |
| SseBitTranspose.StorePair | src/c/bitshuffle/bitshuffle_core.c:716-720 | the 16-bit store at the halved index lands on the two intended bytes, because the index is even |
| SseBitTranspose.ShuffleBitEightelemSse | src/c/bitshuffle/bitshuffle_core.c:695-728 | spreads the words of every group exactly as the scalar kernel does |
| SseBitTranspose.UntransBitElemSse | src/c/bitshuffle/bitshuffle_core.c:732-750 | the output is the buffer whose bit transpose is the input |
| BlockCodec.AcrossHosts | src/c/bitshuffle/bitshuffle_core.c:1064-1091 | data transposed on one instruction set is restored on any other, and all instruction sets store the same bytes |
| ByteOrder.FromBeOfBe | src/c/bitshuffle/bitshuffle_core.c:1206-1228 | a number that fits k bytes is read back from its big-endian bytes |
| ByteOrder.BeAt | src/c/bitshuffle/bitshuffle_core.c:1181-1215 | byte i from the end of the big-endian form of n is n / 256^i % 256 |
| ByteOrder.LeAt | src/writer.rs:8-12 | byte i of the little-endian form of n is n / 256^i % 256 |
| ByteOrder.WordUnique | src/c/bitshuffle/bitshuffle_core.c:1206-1228 | a number that fits is determined by its bytes, in both byte orders |
| ByteOrder.Write | src/c/bitshuffle/bitshuffle_core.c:1181-1215 | writes exactly the k bytes n / 256^i % 256 of the number, highest first, and nothing else |
| ByteOrder.Read | src/c/bitshuffle/bitshuffle_core.c:1193-1228 | reads the one number below 256^k that has these k bytes, highest first |
| ChainSerial.RunSerially | src/c/bitshuffle/iochain.c:42-89 | without threads, any number of iterations is given the pointers of the sequential fold, although 33 slots are reused: the same as in every threaded run |
| BlockCodec.CompressBlock | src/c/bitshuffle/bitshuffle.c:33-71 | writes the length of the LZ4 block in four bytes, highest first, and the LZ4 block of the bit transpose at the output position, moves both chain positions, touches no other byte; four zero bytes if LZ4 refuses the size as an int, a cut-off block if only its int value is acceptable; -80 without output for counts that are no multiple of eight |
| BlockCodec.DecompressBlock | src/c/bitshuffle/bitshuffle.c:75-116 | undoes an LZ4 block of the right size with anything behind it if its header announces its length, moves the positions by the announced and the plain size, and returns the stored size; -91 for another header and -80 for counts that are no multiple of eight, both without output |
| BlockCodec.ShuffleBlock | src/c/bitshuffle/bitshuffle_core.c:1146-1177 | transposes or untransposes one block in place of the chain positions, which move by its size; -80 without output for counts that are no multiple of eight |
| BlockCodec.WorkerUndone | src/c/bitshuffle/bitshuffle.c:33-116 | the inverse worker gives back the block that a worker turned, for bitshuffle, bitunshuffle and LZ4 compression of blocks that LZ4 accepts |
| BlockCodec.OversizeIsLost | src/c/bitshuffle/bitshuffle.c:55-60 | a block above the LZ4 limit, refused or cut off at its size modulo 2^32, turns into the same bytes as some other block |
| BlockedDriver.DefaultIsLargest | src/c/bitshuffle/bitshuffle_core.c:1236-1244 | the default is the largest multiple of eight within the 8192-byte target, but at least 128 |
| BlockedDriver.PlanCovers | src/c/bitshuffle/bitshuffle_core.c:1113-1130 | full and partial blocks together hold all elements but the last size % 8, each block a multiple of eight no larger than the block size |
| BlockedDriver.Wrap | src/c/bitshuffle/bitshuffle_core.c:1098-1142 | turns every block of the plan in order, appends the leftover bytes as they are, leaves the rest of the output alone and returns the bytes used; -81 for a block size that is no multiple of eight |
| BitshuffleLz4.CompressLz4Bound | src/c/bitshuffle/bitshuffle.c:125-144 | in numbers: m + m/255 + 20 for every full block and for the partial one, m being its size as an int, and 4 where LZ4 refuses that size, plus the leftover bytes; that is the room that the worst case of the plan needs; (size_t) -81 for a bad block size |
| BitshuffleLz4.Store | src/c/bitshuffle/bitshuffle.c:147-151 | compress, bitshuffle and bitunshuffle alike: the output has the stored form, its length is returned and never exceeds the worst case of the plan; nothing behind it changes |
| BitshuffleLz4.StoredInNumbers | src/c/bitshuffle/bitshuffle_core.c:1098-1142 | full block k of the buffer, from element k * bs on, stands turned behind the blocks before it, then the partial block, then the last size % 8 elements as they are |
| BitshuffleLz4.Restore | src/c/bitshuffle/bitshuffle.c:154-158 | the inverse function on a stored buffer with anything behind it restores the data and returns the stored length |
| BitshuffleLz4.RoundTrip | src/c/bitshuffle/bitshuffle.c:147-158 | compress on one host, decompress on another: the data comes back and both calls return the same count, within the bound |
| BitshuffleLz4.RestorableExactly | src/c/bitshuffle/bitshuffle.c:33-116 | the stored form determines the buffer if and only if LZ4 accepts every block of the plan |
| BitshuffleLz4.StoreOversize | src/c/bitshuffle/bitshuffle.c:147-151 | compressing any buffer of one block just above the LZ4 limit stores it as the same bytes as some other buffer |
| Framing.BlockSizeIsDefault | src/compression.rs:64-69 | the block size chosen in Rust is the default block size of the C library |
| Framing.Compress | src/compression.rs:61-96 | the frame is the size of the whole elements in 8 bytes and the block size in 4 (their low bytes), byte by byte n / 256^i % 256 with the highest first, followed by the stored whole elements, for every element size |
| Framing.HeaderFields | src/compression.rs:33-38 | dividing the two header fields by the element size gives back element count and block size |
| Framing.Decompress | src/compression.rs:32-58 | restores the whole elements that were framed; a panic on a header that is too short, -81 for a block size that is no multiple of eight |
| Framing.RoundTrip | src/compression.rs:32-124 | the input comes back if and only if its length is a multiple of the element size; otherwise exactly its whole elements do |
| Framing.SmallElementsFit | src/compression.rs:61-78 | elements of at most 64 KiB always meet the limits of LZ4 and of the header fields |
| Channel.WriteValue | src/channel.rs:211-258 | byte i of number j is n / 256^i % 256 and stands at j * width + i in a little-endian channel and at j * width + width - 1 - i in a big-endian one; text stands at the front; everything behind is zero up to the size of the channel; a value of another type is refused |
| Channel.ReadValue | src/channel.rs:211-258 | the numbers read are those below 256^width that have the bytes at their places, in the byte order of the channel, bools by any byte that is not zero, and text ends before the first NUL; fails exactly when the data is too short or the text is not UTF-8, and panics only for a bool array that is too short |
| Channel.ReadBack | src/message.rs:110-142 | reading the written buffer of a fitting value gives that value |
| Channel.Parse | src/message.rs:110-142 | the value that the bytes are, or the decompressed buffer itself in raw mode; the two little-endian numbers of a timestamp part of sixteen bytes, and otherwise seconds and nanoseconds of the message; an error for a data part that cannot be decompressed, a panic for a part shorter than its header, and a panic exactly when the channel cannot read the buffer |
| Channel.Serialize | src/message.rs:144-167 | the data part carries a buffer that has the bytes of the value at their places, and the timestamp part is seconds and nanoseconds in eight bytes each, lowest first; only the LZ4-only compressor can fail |
| Channel.CompressLz4 | src/compression.rs:126-141 | four bytes n / 256^i % 256 of the size in the byte order of the channel, then the block of the other crate |
| Channel.SizeRead | src/compression.rs:107-116 | decompression asks for the signed number that these four bytes are |
| Channel.Lz4Back | src/compression.rs:107-141 | the LZ4-only form with its size header, in both byte orders, gives back what the other crate accepted |
| Channel.RawWritesSame | src/writer.rs:89-130 | a channel that was created raw writes the bytes in memory, flipped in big-endian channels, as the very bytes that a typed channel writes |
| Channel.RawReadBackExactly | src/channel.rs:190-198 | a raw channel asks for elements * elements bytes, so it reads back the bytes of a written value if and only if it has as many elements as an element has bytes, or none |
| Channel.RoundTrip | src/message.rs:110-167 | value and timestamp of every fitting channel come back, in both byte orders, with every compression, whether the sender created the channel raw or not, between any two hosts; a raw reader gets the written buffer; the only failure is that of the LZ4-only compressor |
| Containers.LimitedHashMap.Insert | src/utils.rs:47-62 | the key becomes the newest; nothing is lost while there is room, and after that exactly the oldest key; the order stays a duplicate-free list of the keys |
| Containers.LimitedHashMap.SetMaxSize | src/utils.rs:87-95 | keeps exactly the newest entries; the loop ends because the order lists every key |
| Containers.LimitedHashMap.Remove | src/utils.rs:75-80 | removes the key from map and order and returns its value |
| Containers.HoldsNewest | src/utils.rs:47-62 | after any history of insertions the map holds the last max_size distinct keys by last insertion, in that order, with their last values |
| Containers.FifoQueue.Add | src/utils.rs:119-129 | with room the message is appended and nothing else changes; in a full queue exactly the front is dropped and counted; a queue of size zero counts a drop on its first element |
| Containers.DropsWhenFull | src/utils.rs:119-158 | after any history of calls the queue holds what a bounded counter says, and has dropped exactly one element for every element that was put into it while it was full |
| Containers.NothingDropped | src/utils.rs:119-158 | nothing is dropped or counted in a history in which no element meets a full queue, in particular if no more than max_size elements are put in |
| Containers.FifoQueue.Get | src/utils.rs:132-135 | takes the front, or nothing from an empty queue |
| Containers.Conservation | src/utils.rs:119-158 | after any history of calls: what was put in was given out, dropped, or is still there, and what was given out is an in-order subsequence of what was put in |
| Containers.CounterExact | src/utils.rs:119-129 | after any history of calls the drop counter is exact if and only if the drops counted on an empty queue are none modulo 2^32; with fewer than 2^32 elements put in, if and only if max_size is at least one or nothing was put in |
| Containers.MiscountsAtSizeZero | src/utils.rs:119-129 | a queue of size zero that was given one element has counted a drop, though nothing has been dropped |
| MessageCache.ParseMessage | src/message.rs:376-442 | result and cache afterwards are those of the step function, with evictions; it succeeds with a message if and only if the parts stand for that message: id, hash and compression are those of the main header, header and channels those of the serving cache entry or else of the second part, the names of the data are those of the channels in order of first occurrence, and each holds what the last channel of that name reads from its own two parts |
| MessageCache.ParsedExactly | src/message.rs:376-442 | the same if and only if for the step function that the lemmas about runs are about |
| MessageCache.ValuesAreData | src/message.rs:421-428 | the loop leaves the data of the message, and panics exactly if one of the channels does |
| MessageCache.DataUnique | src/message.rs:421-428 | the parts determine the data, duplicate names included |
| MessageCache.FailsExactly | src/message.rs:418-442 | once the header is known: a wrong number of parts, a channel that panics, a missing id, an unknown type and a missing compression are reported in this order, and nothing else fails |
| MessageCache.FreshFails | src/message.rs:397-416 | a header that is not cached fails for a missing compression, as a decompression error exactly when its part cannot be decompressed, as bad JSON, or as a panic for channels that cannot be made |
| MessageCache.ParseTransparent | src/message.rs:376-442 | on a sound cache a message parses as on an empty one but for the header mark, and the cache stays sound |
| MessageCache.Transparent | src/message.rs:376-442 | over any run with evictions and resizes every message parses as with an empty cache, if equal hashes carry equal headers and endpoint names are no hashes |
| MessageCache.HeaderChangedExactly | src/message.rs:384-442 | whenever there is room for the endpoints seen so far, a parsed message is marked exactly when its hash differs from that of the last message parsed from its endpoint |
| HeaderChanges.MarksAreExact | src/receiver.rs:288-315 | in every run of a receiver with individual sockets and without removals, whatever was connected, disconnected or added, a message is marked exactly when its hash differs from that of the last message parsed from its endpoint: connecting makes room for every header |
| HeaderChanges.HeaderChangesCounted | src/receiver.rs:381-422 | in these runs the HeaderChange diagnostic of an endpoint is the number of header changes delivered since the last reset |
| HeaderChanges.RemovalForgets | src/receiver.rs:258-276 | after a removal and an addition the header of a third endpoint is pushed out, and its next message is marked although its hash has not changed |
| Receiver.Receiver.CheckMessage | src/receiver.rs:381-422 | if and only if, in numbers and mask bits: id 0 with bit 1 is NonPositiveId; otherwise, with bit 1 or 2 and a clock, an id more than 8640000 above it (or below it, with bit 4) is OutOfRangeId; otherwise, with bit 2, an id below or equal to the last of its endpoint is DecreasingId or RepeatedId; otherwise nothing is wrong and bit 2 remembers the id; the diagnostic of the verdict is counted |
| Receiver.Receiver.Receive | src/receiver.rs:475-506 | the reply and the whole new state are those of the step function that the lemmas about runs are about |
| Receiver.Receiver.Connect | src/receiver.rs:204-219 | connects the endpoints in order up to the first that fails, each time with room for one header of every endpoint; it succeeds if and only if no endpoint without a socket is broken, and then every endpoint has a socket |
| Receiver.CheckedSuccessor | src/receiver.rs:404-417 | a refused message leaves the remembered identifiers alone; a delivered one exceeds the last of its endpoint and is remembered |
| Receiver.IdsIncrease | src/receiver.rs:381-422 | in every run that keeps the monotonic check the identifiers delivered for an endpoint strictly increase |
| Verdicts.ReplyExactly | src/receiver.rs:357-422 | what receive answers: Delivered exactly if the identifier is possible and not late, each refusal exactly for its reason, DecompressionError exactly for a failed decompression and ParsingError for every other parse error that is no panic |
| Verdicts.DeliveredExactly | src/receiver.rs:381-422 | in every run that keeps the monotonic check, a parsed message is delivered if and only if its identifier passes the range checks and is above the last one delivered for its endpoint |
| Verdicts.DeliveredByDefault | src/receiver.rs:381-422 | while no check is disabled: if and only if the identifier is positive, within 8640000 of the clock if there is one, and above the last one delivered |
| Verdicts.DiagnosticsCounted | src/receiver.rs:357-506 | in every run each of the ten diagnostics of each endpoint is the number of replies and socket failures that raise it since the last reset or removal of that endpoint |
| Verdicts.TotalsCounted | src/receiver.rs:475-506 | message_count and error_count are the numbers of messages delivered and refused since the last reset |
| Receiver.RangeCheckOverlaps | src/receiver.rs:113-116 | the range check is the union of the bits of the positive and the monotonic check: disabling it disables both |
| Receiver.ErrorsHaveReasons | src/receiver.rs:357-506 | in every run, for every endpoint, Errors is the sum of the six reasons for refusing a message |
| Receiver.CountersAddUp | src/receiver.rs:475-506 | the Messages and Errors diagnostics of all endpoints add up to message_count and error_count if no endpoint was removed, and never exceed them |

## Left out

- Lz4Decompress.DecompressFast: input that is not a properly formed block, for which lz4.h promises nothing about
  memory; the error exits of the fast decoder are there, but no input that reaches them is described.
- Lz4Decompress.DecompressGeneric: the fast form needs a properly formed block, as DecompressFast does; the safe form
  is not described where a single byte of input announces a length byte that is not there, and which of the error
  exits is taken is not said.
- Lz4Decompress.DecompressSafe: inputs of one byte that announce a length byte, which is read before any check; the
  output after a match with offset zero, which depends on what was in the buffer.
- Lz4Decompress.DecodeRound: as DecompressGeneric.
- BlockCodec.DecompressBlock: input that is no LZ4 block of the right size; it goes to the fast LZ4 decoder, which
  trusts it.
- BlockedDriver.Wrap: decompression of input that no compressor produced, as for DecompressBlock, and the division by
  zero of an element size of zero without a block size.
- BitshuffleLz4.Restore: input that the driver did not store, as for DecompressBlock.
- Framing.Decompress: frames with a usable header that no writer produced, as for DecompressBlock, and element sizes
  from 2^32 on.
- Channel.Parse: bit-shuffled data parts with a usable header that no writer produced, as for DecompressBlock.
- BlockCodec.AcrossHosts: the AVX2 kernels, which are not part of this model; hosts are scalar and SSE2.
- BlockCodec.WorkerUndone: decompression as the first of the two workers, because one block has many compressed forms.
- LZ4 dictionaries, streaming, limited output, partial decoding, and 32-bit or big-endian machines.
- Buffers are sequences when only read and arrays when written. A pointer into the middle of an output buffer is a
  fresh array whose contents are copied to their place, so that aliasing between the buffers of one call is not
  captured.
- Failed allocations, sizes whose product leaves the 64-bit size_t, and element counts beyond the range of the `int`
  loop variable of bshuf_trans_bit_byte_remainder.
- Workers that abandon an iteration of the io chain: in the threaded model every worker makes its four calls once per
  iteration, in the order of its header file.
- ParallelBlocks.ParallelIsSerial: the block function is any function of the block number and the input position; a
  byte is stored after the iteration has been closed, as all block functions do, and the error and the count of a
  block are kept in one step.
- HeaderChanges.MarksAreExact: one way only; a removal spoils the marks in some runs and not in others.
- ByteOrder.Read: the last product of the weight, which leaves the machine word and is not used.
- LimitedHashMap.is_void, which looks at the capacity of the hash table: the model starts with the void map and
  resizes it, which has the same contents.
- Containers.FifoQueue.Get: FifoQueue::wait is the same step after a wait that the model does not time.
- Receiver.CountersAddUp: does not model the 32-bit wrap-around of the counters, as ErrorsHaveReasons,
  HeaderChangesCounted, DiagnosticsCounted and TotalsCounted do not.
- Lz4Repeats.GreedyFinds: repeats more than 65 places behind a match, where the search takes larger steps; which of
  them are found is said by the greedy parse alone.
- Receiver.Receiver.Receive: sockets, polling, the clock, forwarding, monitoring events and delivery to callbacks are
  parameters or absent; the raw mode is not switched during a run.
- MessageCache.ParseMessage: JSON, the hash of the header, decompression of headers and channel types are opaque
  functions.
- Channel.ReadValue: the UTF-8 check is a parameter; floats are bit patterns and strings are bytes.
- Channel.RoundTrip: the LZ4 codec of the other crate is a parameter that is trusted to restore what it accepts.
- Pools, dispatcher, sender, asynchronous delivery and debug output.
