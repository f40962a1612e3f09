# Entropy coding, thread pool, hashing and memory: a verified model

Zaster archives are compressed with zstd. This project models the parts of that compressor where a
mistake would silently corrupt data, and the arena allocator of the library itself, and proves what
they promise. The FSE codec (sections 4.1 and 4.1.1 of RFC 8878) is the centre:

- **Bits.** `BitStack` is the abstract stack of bit fields; `Bitstream` has the writer and the backward
  reader with their containers of 4 or 8 bytes; `FieldRoundTrip` shows that any schedule of flushes and
  reloads within the containers gives the fields back.
- **Tables.** `Spread` and `SpreadSymbols` place the symbols, `FseTable` states the law that one
  decoding step undoes one encoding step, `FseBuild` fills the tables in place. `DefaultTables` and
  `LayoutCheck` show that the decoder's literal default tables are what they build.
- **Messages.** `FseMessage` says what a message becomes; `FseCompress` and `FseDecompress` are the two
  interleaved loops.
- **Headers.** `NCountFormat` is the bit format of a distribution, `NCountWriter` and `NCountReader` the
  printer and the parser, which is also followed on arbitrary bytes.
- **Normalization.** `Normalize` turns counts into distributions. Beyond what its documentation promises
  it turns out never to fail once the table log is fit: the error branch of the fallback is dead.
  `Shares` has the exact bounds of how close the cells come to the counts.
- **Blocks.** `FseBlock`, `HufWeights` and `HufStats` put the pieces together for the weights of Huffman
  tables (section 4.2.1 of RFC 8878), from the histogram to the weights read back.
- **Sequences.** `Sequences`, `SeqEncode` and `SeqDecode` are the sequences section (section 3.1.1.3.2 of
  RFC 8878) with the exact budget of both accumulators; `SeqValues` adds the codes of lengths and offsets
  and the history of recent offsets, and `SeqStore` the way in which sequences are stored. `RoundTrips` and `SeqRoundTrip` state the results end to end.

Four smaller parts stand by themselves: `Pool` (a state machine with all its runs) and `PoolCtx` (the
class with the circular buffer, whose critical sections are the steps of the state machine); `XxHash` and
`XxStreams` (streaming against one-shot hashing, with known values in `XxVectors`); `Pages` and `Allocator` (blocks, footers and the bump
allocator); `Wildcopy` (chunked copies against the byte-by-byte copy, up to the match copy of the decoder).

## How C is modelled

- Numbers are unbounded; where a C type can wrap, the model says so: `Low(x, n)` keeps n bits, `Shl` and
  `Shr` are the shifts, `RegMask` is the masked shift count. `|=` on bits that are clear is an addition.
- A container is a number below 2^32 or 2^64, so both word sizes are covered by a parameter `width`.
- Errors are values of `Result`. Buffers that C fills in place are arrays, and structures whose
  functions update them are classes.
- Ghost parameters carry what a proof follows (the message behind the bytes). Contracts for arbitrary
  input hold whatever they are.
- The operating system's pages, the threads that can be started, and memory for thread handles are
  parameters: whatever answers come, the contracts hold.
- A condition variable's signal wakes at least one waiter if there is one, and waiters may also wake up
  without a signal.

## Where code and comments differ

- `FSE_decompress` needs the last symbol but one to leave its state through at least one bit, because the
  end of the message is noticed by reading past the end of the stream. `RoundTrips.MessageRoundTrip` has
  the exact condition: that symbol must not own the whole table.
- A pool without a waiting queue is documented to take a job only when a thread is free. After a shrink
  it may take one although none is; `Pool.TakesWhenFree` says exactly when and `Pool.ShrinkOverfills` is
  such a run.
- `POOL_tryAdd` reports success for a job that a shutdown makes it drop (`PoolCtx.Ctx.TryAdd`).
- The parity test at the end of `HUF_readStats` can never fail on its own (`HufStats.LongestCodesPair`).

## Model

| member | source | states |
|---|---|---|
| RoundTrips.MessageRoundTrip | zstd/lib/compress/fse_compress.c:551-608 | For every distribution and every message of its symbols with a nonzero compressed size, on 32- and 64-bit writers and readers and with either way of reading symbols: the message comes back if and only if the output has room for it and its last symbol but one does not own the whole table; otherwise the error is that of a small output. |
| RoundTrips.EitherWay | zstd/lib/common/fse_decompress.c:173-236 | Which of the two cases of the decoder a finished stream falls in, decided by one symbol of the message. |
| RoundTrips.OwnerIdles | zstd/lib/common/fse_decompress.c:149-156 | If one symbol owns the table, no decoding cell reads a bit, so the decoder never reads past the end. |
| RoundTrips.HeaderRoundTrip | zstd/lib/common/entropy_common.c:57-186 | A distribution whose header could be written is read back with the same table log, the same frequencies (also -1 and long runs of absent symbols) and the same length, whatever bytes follow. |
| RoundTrips.HuffmanRoundTrip | zstd/lib/compress/huf_compress.c:248-325 | For every complete code given by its lengths (they fill the code space exactly): the description, an FSE block or 4 bits each, gives back all lengths, and weights that add up with them to the table log plus one; up to 129 symbols it can always be written with room for it. |
| RoundTrips.SpaceIsShares | zstd/lib/compress/huf_compress.c:265-270 | The shares of the weights are the parts of the code space that the lengths take. |
| RoundTrips.LengthsOf | zstd/lib/compress/huf_compress.c:319-323 | The lengths that a reader makes of the weights are the ones they were made from. |
| SeqRoundTrip.SequencesRoundTrip | zstd/lib/compress/zstd_compress_sequences.c:290-382 | For all sequences found, as they are stored, and all tables that undo each other, with or without long offsets and on 32 or 64 bits: an encoded section is executed as exactly the literal lengths, match lengths and offsets that were found. |
| SeqRoundTrip.BuiltCodec | zstd/lib/compress/fse_compress.c:169-200 | The two tables of a distribution serve for any kind of code. |
| SeqRoundTrip.RleCodec | zstd/lib/compress/fse_compress.c:528-548 | So do the two tables of a single repeated code. |
| FieldRoundTrip.WriteThenRead | zstd/lib/common/bitstream.h:150-242 | Any fields, flushed on any schedule that fits the writer's container and reloaded on any schedule that fits the reader's, come back in reverse order; the end of the stream is noticed exactly after the last one; a size of 0 means exactly that the bytes did not fit. |
| FieldRoundTrip.WriteFields | zstd/lib/common/bitstream.h:180-242 | The closed stream holds the fields pushed one above the other. |
| FieldRoundTrip.ReadFields | zstd/lib/common/bitstream.h:362-452 | Reading takes the fields from the top and ends exactly at the end of the stream. |
| BitStack.PopPush | zstd/lib/common/bitstream.h:180-188 | The last field added is the first one read, and reading it leaves what was there before. |
| BitStack.PushSplit | zstd/lib/compress/zstd_compress_sequences.c:356-366 | Adding a field in two parts, low bits first, is adding it at once. |
| BitStack.PopSplit | zstd/lib/decompress/zstd_decompress_block.c:1284-1292 | Reading a field in two parts, high bits first, is reading it at once. |
| Bytes.LEToBytes | zstd/lib/common/mem.h:361-367 | A number stored little-endian is read back, cut to the bytes stored. |
| Bytes.WriteLE | zstd/lib/common/mem.h:361-367 | A store changes exactly the bytes it covers. |
| Bitstream.StreamUnique | zstd/lib/common/bitstream.h:236-242 | The bytes of a stream depend on its fields only, not on how it was flushed. |
| Bitstream.CStream.constructor | zstd/lib/common/bitstream.h:150-160 | A new writer is empty and leaves room for a whole store at the end. |
| Bitstream.CStream.AddBits | zstd/lib/common/bitstream.h:180-188 | The low bits of the value are pushed above all the fields so far. |
| Bitstream.CStream.FlushBits | zstd/lib/common/bitstream.h:221-231 | Committing whole bytes and clamping the pointer keeps the fields; fewer than 8 bits stay in the container. |
| Bitstream.CStream.FlushBitsFast | zstd/lib/common/bitstream.h:205-214 | The unchecked flush does the same when the bytes fit. |
| Bitstream.CStream.Close | zstd/lib/common/bitstream.h:236-242 | A size is returned exactly when every byte stayed below the clamp, and then the bytes are the fields with one end mark. |
| Bitstream.UnreadOfStream | zstd/lib/common/bitstream.h:254-300 | Opening a closed stream finds the end mark and exactly the fields put in. |
| Bitstream.FastIsSlow | zstd/lib/common/bitstream.h:330-351 | The two-shift read equals the masked read while the container has the bits. |
| Bitstream.LookBitsIsTop | zstd/lib/common/bitstream.h:330-342 | Reading from the container is taking the top of what is left of the whole stream. |
| Bitstream.DStream.Init | zstd/lib/common/bitstream.h:254-300 | Fails exactly when there is no end mark; otherwise everything below it is left to read. |
| Bitstream.DStream.ReadBits | zstd/lib/common/bitstream.h:362-367 | Takes the top field; when more is asked for than the container has, only the overrun is recorded. |
| Bitstream.DStream.ReadBitsFast | zstd/lib/common/bitstream.h:371-377 | The same for at least one bit. |
| Bitstream.DStream.Reload | zstd/lib/common/bitstream.h:384-444 | Never changes what is left to read; the status tells how much the container holds, and an overrun is reported and kept. |
| Bitstream.DStream.EndOfDStream | zstd/lib/common/bitstream.h:449-452 | Holds exactly when no bit is left. |
| Spread.WalkDistinct | zstd/lib/common/fse.h:623 | The walk meets no cell twice in one round; that its step is size/2 + size/8 + 3 is what the default tables show. |
| Spread.WalkReturns | zstd/lib/compress/fse_compress.c:152-166 | After one round it is back at 0. |
| Spread.RoundVisitsEveryCell | zstd/lib/compress/fse_compress.c:155-166 | One round meets every cell outside the low-probability area exactly once. |
| Spread.FillOrderIsPermutation | zstd/lib/compress/fse_compress.c:154-167 | The order in which cells are filled, low-probability cells included, is a permutation of the table. |
| Spread.SpreadUnique | zstd/lib/common/fse_decompress.c:135-147 | A distribution has one spread only, so encoder and decoder place symbols identically. |
| Spread.SpreadCounts | zstd/lib/compress/fse_compress.c:115-167 | Each symbol fills as many cells as its frequency says. |
| SpreadSymbols.SkipLowProb | zstd/lib/compress/fse_compress.c:163-164 | Steps to the next cell below the area, without missing one. |
| SpreadSymbols.PlaceSymbol | zstd/lib/compress/fse_compress.c:157-165 | Places the occurrences of one symbol in the next cells of the round. |
| SpreadSymbols.SpreadSlow | zstd/lib/compress/fse_compress.c:154-167 | The simple loop makes the spread of the distribution, ending at position 0. |
| SpreadSymbols.LayRun | zstd/lib/compress/fse_compress.c:125-134 | Writing 8 copies at a time, beyond the end of a run, still leaves the expansion of the distribution. |
| SpreadSymbols.SpreadFast | zstd/lib/compress/fse_compress.c:116-153 | The unrolled spread makes the same table as the simple loop. |
| SpreadSymbols.SpreadPairs | zstd/lib/common/fse_decompress.c:120-134 | Two cells per step, in the order of the walk. |
| SpreadSymbols.SpreadAll | zstd/lib/compress/fse_compress.c:115-167 | Either branch makes the one spread of the distribution. |
| LayoutCheck.SpreadChecked | zstd/lib/decompress/zstd_decompress_block.c:506-586 | A layout that has been followed stage by stage is the spread of its distribution. |
| LayoutCheck.LeadsInList | zstd/lib/decompress/zstd_decompress_block.c:588-602 | The cells of a symbol, listed in order, are the decoding cells of its numbers. |
| DefaultTables.LLDefault | zstd/lib/decompress/zstd_decompress_block.c:364-399 | Any decoding table built from LL_defaultNorm is the literal table, cell by cell: next state, extra bits, bits and base value. |
| DefaultTables.OFDefault | zstd/lib/decompress/zstd_decompress_block.c:401-422 | The same for OF_defaultNorm. |
| DefaultTables.MLDefault | zstd/lib/decompress/zstd_decompress_block.c:425-460 | The same for ML_defaultNorm. |
| DefaultTables.LLBuild | zstd/lib/common/zstd_internal.h:126-134 | FSE builds the literal table of literal lengths from its default distribution. |
| DefaultTables.OFBuild | zstd/lib/common/zstd_internal.h:157-164 | The literal table of offset codes. |
| DefaultTables.MLBuild | zstd/lib/common/zstd_internal.h:145-155 | The literal table of match lengths. |
| Distribution.CountCellSymbols | zstd/lib/compress/fse_compress.c:115-167 | The symbols to be placed contain each symbol as often as its weight. |
| FseTable.StepArithmetic | zstd/lib/common/fse.h:454-461 | The bits shifted out leave a number among the cells of the symbol, and the lookup finds that cell. |
| FseTable.StartArithmetic | zstd/lib/common/fse.h:443-452 | The first symbol starts at its first cell. |
| FseTable.CellArithmetic | zstd/lib/common/fse_decompress.c:149-156 | The cell asks for exactly the bits shifted out and leads back to the state they were taken from. |
| FseTable.TablesInverse | zstd/lib/compress/fse_compress.c:169-200 | From every state and for every symbol with a nonzero frequency, decoding undoes encoding: same symbol, same number of bits, previous state. |
| FseTable.StartBits | zstd/lib/common/fse.h:440-452 | A first state is left through at least one bit exactly when its symbol does not own the table. |
| FseTable.BuiltTablesInverse | zstd/lib/common/fse_decompress.c:149-156 | Both laws for any two tables built from one distribution. |
| FseBuild.CumulateWeights | zstd/lib/compress/fse_compress.c:100-113 | Start positions are the cumulated weights; low-probability symbols are laid from the end. |
| FseBuild.FillStates | zstd/lib/compress/fse_compress.c:169-173 | Every cell number is stored at the rank of the cell among those of its symbol. |
| FseBuild.BuildTransforms | zstd/lib/compress/fse_compress.c:175-200 | The transform of each symbol is the one that its weight and its position call for. |
| FseBuild.BuildCTable | zstd/lib/compress/fse_compress.c:68-214 | The encoding table of the distribution, over its one spread. |
| FseBuild.NextStates | zstd/lib/common/fse_decompress.c:74-89 | The counters of the decoder start at the weights; the fast mode is on only if no symbol has half the table. |
| FseBuild.FillCells | zstd/lib/common/fse_decompress.c:149-156 | Every decoding cell is numbered by its rank. |
| FseBuild.BuildDTable | zstd/lib/common/fse_decompress.c:58-159 | The decoding table of the distribution, closed under any bits read; an error exactly for a table log above 12. |
| FseBuild.CellCloses | zstd/lib/common/fse_decompress.c:153-155 | The next state of a cell never leaves the table, and with the fast mode it reads at least one bit. |
| FseBuild.RleInverse | zstd/lib/compress/fse_compress.c:528-548 | The tables of a single symbol undo each other without any bits. |
| FseMessage.EncodeStep | zstd/lib/common/fse.h:454-461 | One step keeps both states valid and adds at most tableLog bits. |
| FseMessage.DecodeStart | zstd/lib/common/fse_decompress.c:190-191 | The decoder's two states are the two fields on top of the stream. |
| FseMessage.DecodeStep | zstd/lib/common/fse.h:540-549 | Decoding one symbol gives that symbol and the encoder's situation before it. |
| FseMessage.SymbolsLeft | zstd/lib/common/fse_decompress.c:197-215 | The number of bits left bounds how many symbols can follow. |
| FseCompress.EncodeSymbol | zstd/lib/common/fse.h:454-461 | Adds the bits and moves the state as the specification of one step says. |
| FseCompress.EncodeOdd | zstd/lib/compress/fse_compress.c:569-577 | Odd and even lengths start with the right two states. |
| FseCompress.EncodeAndFlush | zstd/lib/compress/fse_compress.c:579-603 | Two or four symbols between flushes never overflow the container. |
| FseCompress.Finish | zstd/lib/compress/fse_compress.c:605-607 | Both states are flushed on top and the stream is closed. |
| FseCompress.CompressGeneric | zstd/lib/compress/fse_compress.c:551-608 | A nonzero size is returned exactly for more than 2 symbols whose stream fits; the bytes are the stream of the message, with or without bounds checks, for 4- and 8-byte containers. |
| FseDecompress.GetSymbol | zstd/lib/common/fse.h:540-562 | The symbol of the cell, and a state inside the table for any input. |
| FseDecompress.DecodeMain | zstd/lib/common/fse_decompress.c:197-215 | Four symbols per reload never read beyond the container, and never run into the last symbols. |
| FseDecompress.DecodeTail | zstd/lib/common/fse_decompress.c:217-232 | The overflow of the bitstream stops the decoding after exactly the last two symbols. |
| FseDecompress.DecompressGeneric | zstd/lib/common/fse_decompress.c:173-236 | For any bytes the output stays in dst; a compressed message is decoded exactly, or is refused exactly when dst is too small; a table owned by one symbol always ends in an error. |
| FseBlock.SameBits | zstd/lib/compress/fse_compress.c:551-608 | The stream of a message depends on the encoding table alone. |
| FseBlock.DecoderExists | zstd/lib/common/fse_decompress.c:58-159 | Every encoding table has a decoding table that undoes it. |
| FseBlock.HeaderFirst | zstd/lib/common/entropy_common.c:57-186 | Bytes after a header do not disturb its reading. |
| FseBlock.OptimalFits | zstd/lib/compress/fse_compress.c:357-374 | The proposed table log always suits the normalization, and stays within the maximum when that is possible. |
| FseBlock.WriteNCount | zstd/lib/compress/fse_compress.c:330-340 | The log is checked first; then the header of a full distribution is written if there is room. |
| FseBlock.CompressUsingCTable | zstd/lib/compress/fse_compress.c:610-620 | For tables of at most 2^8 cells the size that switches bounds checks off is always enough. |
| FseBlock.DecompressWksp | zstd/lib/common/fse_decompress.c:243-289 | A header followed by a message of its distribution gives the message; arbitrary bytes never write outside dst. |
| NCountFormat.CompletesWhen | zstd/lib/compress/fse_compress.c:272-318 | A distribution whose first symbols share out the whole table can be written ... |
| NCountFormat.CompletesOnly | zstd/lib/compress/fse_compress.c:317-318 | ... and no other. |
| NCountFormat.HeaderExtends | zstd/lib/compress/fse_compress.c:272-315 | Later bits leave the earlier ones as they are. |
| NCountFormat.CountFits | zstd/lib/compress/fse_compress.c:294-307 | Every count fits its field, whose width shrinks with what remains. |
| NCountFormat.CountField | zstd/lib/compress/fse_compress.c:294-304 | Below the threshold the low bits of a count's field are the count; from it on the field is the count moved up by what is saved; the short form is taken exactly below that number. |
| NCountFormat.HeaderLength | zstd/lib/compress/fse_compress.c:272-315 | A header takes at most table log plus 3 bits for each symbol, besides its first 4. |
| NCountFormat.ExampleHeader | zstd/lib/compress/fse_compress.c:233-327 | The fields of a whole header with a run and a low-probability symbol. |
| NCountFormat.RunOfPairs | zstd/lib/compress/fse_compress.c:277-292 | Runs of absent symbols can be cut at any multiple of 3. |
| NCountFormat.PairsAreOnes | zstd/lib/compress/fse_compress.c:278-285 | 16 set bits are 8 pairs. |
| NCountWriter.WriteRun | zstd/lib/compress/fse_compress.c:273-293 | A run is written as its specification says, in blocks of 24, then of 3, then the rest. |
| NCountWriter.WriteCount | zstd/lib/compress/fse_compress.c:294-307 | The count is written as its specification says. |
| NCountWriter.Shrink | zstd/lib/compress/fse_compress.c:306 | The threshold follows the highest bit of what remains. |
| NCountWriter.WriteSymbol | zstd/lib/compress/fse_compress.c:272-315 | One round writes one symbol, or finds that the distribution is incorrect. |
| NCountWriter.WriteNCountGeneric | zstd/lib/compress/fse_compress.c:233-327 | Succeeds only for a full distribution, and then the bytes are exactly its header; with room for the header it does succeed. |
| NCountBits.RunSeen | zstd/lib/common/entropy_common.c:88-107 | Counting trailing ones of a window finds the length of a run. |
| NCountBits.CountReadBack | zstd/lib/common/entropy_common.c:132-142 | The reader finds the count and its width. |
| NCountReader.ReadRun | zstd/lib/common/entropy_common.c:82-108 | The loop over blocks of 36 symbols ends for any bytes, also where the position is moved back near the end, and finds the run that was written. |
| NCountReader.ReadCount | zstd/lib/common/entropy_common.c:131-142 | For any bytes the count is at least -1 and below what remains. |
| NCountReader.ReadSymbol | zstd/lib/common/entropy_common.c:81-178 | One round keeps at least 1 remaining and undoes one round of the writer. |
| NCountReader.ReadNCountBody | zstd/lib/common/entropy_common.c:41-187 | For any bytes: on success a full distribution with its last symbol present, read from within the input; for a written header, that distribution, its log and its length. |
| NCountReader.ReadNCount | zstd/lib/common/entropy_common.c:57-66 | The same for inputs below 8 bytes, padded. |
| Normalize.SomeAbove | zstd/lib/compress/fse_compress.c:486 | Some symbol always gets more than the low threshold. |
| Normalize.FewSymbols | zstd/lib/compress/fse_compress.c:417-420 | Symbols that occur are always fewer than the cells, so cells are left to distribute. |
| Normalize.FirstPass | zstd/lib/compress/fse_compress.c:391-416 | Rare symbols get one cell; what is left is counted exactly. |
| Normalize.SecondPass | zstd/lib/compress/fse_compress.c:422-434 | So are those up to the raised threshold. |
| Normalize.RaiseThreshold | zstd/lib/compress/fse_compress.c:422-434 | The threshold that results is one and a half times the average count of a cell, or of a cell that is left; every pending symbol has at least the average. |
| Normalize.NoCell | zstd/lib/compress/fse_compress.c:451-458 | In fixed point, only a count below the average can get no cell. |
| Normalize.AllShares | zstd/lib/compress/fse_compress.c:446-460 | The fixed-point stretches of all pending symbols cover exactly the cells left. |
| Normalize.Stretches | zstd/lib/compress/fse_compress.c:450-460 | Each pending symbol gets the whole cells that its stretch covers, to within one of the exact stretch. |
| Normalize.FixedPoint | zstd/lib/compress/fse_compress.c:446-460 | Shares out exactly the cells left, each pending symbol within one cell below and less than one and a half above its proportional share; or fails because some symbol was starved. |
| Normalize.RoundRobin | zstd/lib/compress/fse_compress.c:440-444 | Ends, gives out exactly the cells left, and to symbols with cells as evenly as possible, the first ones first. |
| Normalize.HandOut | zstd/lib/compress/fse_compress.c:434-462 | Every exit of the fallback uses up the table, in its own way: to the most frequent symbol, in turn, or in proportion. |
| Normalize.NormalizeM2 | zstd/lib/compress/fse_compress.c:379-463 | The fallback always succeeds (its error branch is never taken), and shares out the cells by the two thresholds and the counts. |
| Normalize.PrimaryShares | zstd/lib/compress/fse_compress.c:488-505 | Every symbol above the low threshold has a close share; the largest is the first of the largest shares; a single-symbol input is recognized. |
| Normalize.NormalizeFit | zstd/lib/compress/fse_compress.c:477-512 | Uses up the table exactly. The fallback is taken exactly when the shares are too many by half of the largest; else all shares are close but the largest, which takes what is left and more than half of its share. |
| Normalize.NormalizeCount | zstd/lib/compress/fse_compress.c:465-525 | Fails exactly for an unfit table log; returns 0 exactly when one symbol is the whole input; otherwise the frequencies fill 2^tableLog cells, are zero exactly where the counts are, are -1 only if asked for, and are in proportion to the counts as stated for both methods. |
| Normalize.MinTableLogIs | zstd/lib/compress/fse_compress.c:348-357 | The smallest fit table log is the one whose cells outnumber the bytes of the input or twice its greatest symbol. |
| Normalize.Proba | zstd/lib/compress/fse_compress.c:493-500 | A share is at least one cell and at most the table, and close to its part. |
| Shares.RoundedClose | zstd/lib/compress/fse_compress.c:476-500 | Rounding the fixed-point product gives less than one cell above the exact share and less than one below it, up to the truncated step. |
| Shares.SmallTotalClose | zstd/lib/compress/fse_compress.c:476-500 | For inputs below 2^25 bytes: within one cell on either side. |
| Shares.StretchFair | zstd/lib/compress/fse_compress.c:446-458 | A stretch in fixed point gives less than one cell below the proportional share, and less than one and c / (2 * rest) above it. |
| Normalize.NoOwner | zstd/lib/compress/fse_compress.c:488-490 | With two symbols that occur, none owns the whole table. |
| HufWeights.CountSimple | zstd/lib/compress/hist.c:39-64 | The counts of all symbols up to the last one present, and the largest. |
| HufWeights.CompressWeights | zstd/lib/compress/huf_compress.c:146-186 | A coded outcome is an FSE block of the weights; a single weight is reported exactly when all are equal; with 17 bytes of room it never fails. |
| HufWeights.CodeWeights | zstd/lib/compress/huf_compress.c:171-183 | Header and message make a block that gives the weights back. |
| HufWeights.NormalizeWeights | zstd/lib/compress/huf_compress.c:168-169 | The table log is at most 6, all weights that occur have cells and none owns the table. |
| HufWeights.ConvertToWeights | zstd/lib/compress/huf_compress.c:265-270 | The weight is 0 exactly for an absent symbol; else weight and length add up to the table log plus one. |
| HufWeights.WriteNibbles | zstd/lib/compress/huf_compress.c:281-288 | Two weights to a byte. |
| HufWeights.WriteRaw | zstd/lib/compress/huf_compress.c:281-289 | The raw form, with its exact errors. |
| HufWeights.WriteCTable | zstd/lib/compress/huf_compress.c:248-289 | On success the bytes describe the weights of all symbols but the last; up to 129 symbols it succeeds in every buffer with room for the raw form and for a header. |
| HufStats.LongestCodesPair | zstd/lib/common/entropy_common.c:301-302 | The number of longest codes is even whenever Kraft's equality holds, so that part of the last test never fails. |
| HufStats.ImpliedCloses | zstd/lib/common/entropy_common.c:284-299 | The implied last weight completes the code. |
| HufStats.ClosingIsImplied | zstd/lib/common/entropy_common.c:284-299 | It is the only weight that can. |
| HufStats.ReadNibbles | zstd/lib/common/entropy_common.c:264-270 | The raw form is taken apart. |
| HufStats.ReadWeights | zstd/lib/common/entropy_common.c:254-277 | Either form gives the weights that were described, for any bytes inside the buffer. |
| HufStats.CollectStats | zstd/lib/common/entropy_common.c:279-287 | The exact histogram, and the sum of the shares. |
| HufStats.ReadStats | zstd/lib/common/entropy_common.c:242-306 | Success means Kraft's equality with a log of at most 12, rankStats the exact histogram, at least two longest codes; a written description is read back. |
| Sequences.LLBits | zstd/lib/common/zstd_internal.h:119-125 | The extra bits of a literal length code, at most 16. |
| Sequences.MLBits | zstd/lib/common/zstd_internal.h:136-144 | The extra bits of a match length code, at most 16. |
| Sequences.StateBack | zstd/lib/common/fse.h:454-461 | The cell of a state carries its code and leads back with the bits on top. |
| Sequences.CodesBack | zstd/lib/decompress/zstd_decompress_block.c:1253-1264 | The codes of a sequence are the symbols of the three states. |
| Sequences.ExtrasBack | zstd/lib/decompress/zstd_decompress_block.c:1277-1327 | The extra bits come back offset first, literal length last. |
| Sequences.StatesOnTop | zstd/lib/decompress/zstd_decompress_block.c:1640-1642 | The three states are on top of the section, literal lengths first. |
| SeqEncode.AddOffset | zstd/lib/compress/zstd_compress_sequences.c:356-367 | Long offsets are added in two parts without overflow and make the same field. |
| SeqEncode.EncodeStates | zstd/lib/compress/zstd_compress_sequences.c:346-351 | Three states between flushes never overflow the accumulator. |
| SeqEncode.EncodeExtras | zstd/lib/compress/zstd_compress_sequences.c:352-367 | Nor do the extra bits, on 64 bits for all codes, on 32 bits with long offsets or codes up to 24. |
| SeqEncode.EncodeFirst | zstd/lib/compress/zstd_compress_sequences.c:314-330 | Nor do those of the last sequence, which is encoded first. |
| SeqEncode.EncodeSequences | zstd/lib/compress/zstd_compress_sequences.c:290-382 | Fails exactly when the section does not fit; otherwise the bytes are its stream, on 32 and 64 bits, with and without long offsets. |
| SeqDecode.ReadOffset | zstd/lib/decompress/zstd_decompress_block.c:1277-1313 | An offset is read within the container: up to 25 bits on 32 bits, up to 30 with long offsets. |
| SeqDecode.ReadExtras | zstd/lib/decompress/zstd_decompress_block.c:1277-1330 | Reloads always come in time for the extra bits. |
| SeqDecode.UpdateStates | zstd/lib/decompress/zstd_decompress_block.c:1335-1342 | And for the bits of the three states. |
| SeqDecode.DecodeSequence | zstd/lib/decompress/zstd_decompress_block.c:1228-1346 | Codes and extra bits of one sequence, and the situation before it. |
| SeqDecode.DecodeSequences | zstd/lib/decompress/zstd_decompress_block.c:1614-1677 | A section gives back the codes and extra bits of all its sequences and is read to its exact end. |
| SeqValues.LiteralLengthBack | zstd/lib/compress/zstd_compress_internal.h:584-596 | Every literal length below 2^17 is its base and its extra bits, and only 0 has base 0. |
| SeqValues.MatchLengthBack | zstd/lib/compress/zstd_compress_internal.h:601-613 | Every match length below 2^17 + 3 is its base and its extra bits. |
| SeqValues.HistoryAgrees | zstd/lib/compress/zstd_compress_internal.h:818-835 | The decoder's history of recent offsets, computed from the extra bits, is the encoder's. |
| SeqValues.UpdateMeans | zstd/lib/compress/zstd_compress_internal.h:818-835 | When the stored value stands for an offset (the offset plus 3, or a recent one), the history gets that offset in front and drops the one it repeats, or the oldest. |
| SeqValues.SequenceMeans | zstd/lib/compress/zstd_compress_internal.h:736-770 | The fields of one stored sequence give back the literal length, the match length (3 more than stored), the offset and the next history. |
| SeqStore.FinalizeMeans | zstd/lib/compress/zstd_compress.c:6622-6636 | The value chosen stands for the offset, and is the offset in full exactly when no recent offset would do. |
| SeqStore.LastOffsetsMeans | zstd/lib/compress/zstd_compress.c:6702-6722 | When all offsets are stored in full, the last three are the history. |
| SeqStore.StoreSequence | zstd/lib/compress/zstd_compress.c:6672-6698 | One more sequence is stored so that it means what was found, whichever way its offset is stored. |
| SeqStore.TransferSequences | zstd/lib/compress/zstd_compress.c:6644-6738 | Fails exactly without a delimiter or without room; else the sequences up to the delimiter are stored so that they mean what was given, and the history left is the one the decoder ends with. |
| SeqValues.SectionMeans | zstd/lib/decompress/zstd_decompress_block.c:1277-1327 | Executing the fields of a whole section gives the sequences that were found, from any common history. |
| SeqValues.ToCodes | zstd/lib/compress/zstd_compress.c:2693-2719 | Every value that the format can express has codes within the format's limits. |
| Pool.RunKeeps | zstd/lib/common/pool.c:67-104 | In every run: the jobs that could start now never outnumber the awake idle workers; queue, limit, busy count and the accounting of jobs stay consistent. |
| Pool.NextKeeps | zstd/lib/common/pool.c:67-284 | Every step keeps that. |
| Pool.AddKeeps | zstd/lib/common/pool.c:271-311 | Adding a job wakes a waiting worker, or nobody waits. |
| Pool.CheckLimits | zstd/lib/common/pool.c:74-95 | A worker that pops, waits or returns loses no wakeup and keeps the busy count. |
| Pool.CheckJobs | zstd/lib/common/pool.c:74-95 | It starts the oldest job, and every started job runs on one worker or is finished. |
| Pool.ResizeKeeps | zstd/lib/common/pool.c:215-253 | Growing, shrinking and failing to grow keep it. |
| Pool.FinishKeeps | zstd/lib/common/pool.c:97-101 | A worker that finishes a job is awake for the next one. |
| Pool.BroadcastKeeps | zstd/lib/common/pool.c:165-178 | The broadcast of a shutdown leaves nobody waiting. |
| Pool.CreationKeeps | zstd/lib/common/pool.c:145-159 | Nothing is lost while the limit is still 0. |
| Pool.NoJobStranded | zstd/lib/common/pool.c:74-95 | While a job is queued and a slot is free, an awake worker's next look starts the oldest job. |
| Pool.HistoryGrows | zstd/lib/common/pool.c:84-95 | Jobs are taken in at the end and started one at a time in that order; finished jobs stay finished. |
| Pool.StartsAreOnce | zstd/lib/common/pool.c:84-96 | No job runs on two workers, or runs again after it finished. |
| Pool.JoinJobsWaitsForAll | zstd/lib/common/pool.c:191-200 | POOL_joinJobs returns only when all jobs taken in have finished. |
| Pool.JoinLeavesNothing | zstd/lib/common/pool.c:165-178 | When all threads have returned the queue is empty and every job has finished, although threads may return while jobs are queued. |
| Pool.JoinProgresses | zstd/lib/common/pool.c:165-178 | After the broadcast every worker that has not returned can step. |
| Pool.JoinStepsDown | zstd/lib/common/pool.c:165-178 | Every such step is one of finitely many, so POOL_join ends. |
| Pool.JoinOnlyWorkers | zstd/lib/common/pool.c:165-178 | After the broadcast no step but the workers' own changes the queue or a worker. |
| Pool.TakesWhenFree | zstd/lib/common/pool.c:255-268 | Without a waiting queue, a job is taken exactly when a thread is free if and only if no more threads are busy than the limit. |
| Pool.ShrinkOverfills | zstd/lib/common/pool.c:215-221 | A run that shrinks below the busy threads and then takes a job although no thread is free. |
| PoolCtx.RingPop | zstd/lib/common/pool.c:85-89 | Taking the cell at the head takes the oldest job. |
| PoolCtx.RingPush | zstd/lib/common/pool.c:280-283 | Filling the cell at the tail adds the newest. |
| PoolCtx.RingFull | zstd/lib/common/pool.c:261-268 | The next tail meets the head exactly when all cells but one are used. |
| PoolCtx.Ctx.constructor | zstd/lib/common/pool.c:113-160 | An empty queue with one spare cell, and no threads yet. |
| PoolCtx.Ctx.MustWait | zstd/lib/common/pool.c:74-75 | The loop guard is the negation of the enabling condition of a pop. |
| PoolCtx.Ctx.Pop | zstd/lib/common/pool.c:84-91 | The step that starts a job, on the circular buffer. |
| PoolCtx.Ctx.Done | zstd/lib/common/pool.c:97-101 | The step that ends a job. |
| PoolCtx.Ctx.IsQueueFull | zstd/lib/common/pool.c:261-268 | Full in the buffer is full in the queue, also for a single cell. |
| PoolCtx.Ctx.AddInternal | zstd/lib/common/pool.c:271-284 | The step that takes a job in, or drops it after a shutdown. |
| PoolCtx.Ctx.TryAdd | zstd/lib/common/pool.c:299-310 | Returns true exactly when fewer jobs wait than the buffer has cells but one (without a waiting queue: when none waits and not as many threads are busy as the limit); the job is taken exactly when there was no shutdown either. |
| PoolCtx.Ctx.ResizeInternal | zstd/lib/common/pool.c:215-241 | The limit changes only if all threads asked for exist; the error is exact. |
| XxHash.StripesAppend | zstd/lib/common/xxhash.h:3573-3616 | Hashing a piece and going on from what it left over is hashing both. |
| XxHash.TopUp | zstd/lib/common/xxhash.h:3592-3600 | Completing a started stripe first changes nothing. |
| XxHash.RestLength | zstd/lib/common/xxhash.h:3439-3443 | What is left over is the length modulo the stripe. |
| XxHash.Finalize | zstd/lib/common/xxhash.h:3439-3462 | The loops over words, half words and bytes compute the recursive tail. |
| XxHash.ConsumeStripes | zstd/lib/common/xxhash.h:3602-3612 | The loop over whole stripes. |
| XxHash.OneShot | zstd/lib/common/xxhash.h:3483-3516 | The one-shot function computes the hash of the specification. |
| XxHash.Absorber.Absorb | zstd/lib/common/xxhash.h:3583-3618 | An update keeps lanes and buffer in step with everything seen, for any length. |
| XxHash.Sticky | zstd/lib/common/xxhash.h:3138-3139 | large_len is set exactly when 16 bytes have been seen, however often the 32-bit counter wraps. |
| XxHash.State64.Update | zstd/lib/common/xxhash.h:3573-3620 | Everything seen is extended by the input. |
| XxHash.State64.DigestStream | zstd/lib/common/xxhash.h:3624-3641 | The digest is the one-shot hash of everything seen, for any total length that fits 64 bits. |
| XxHash.State32.Update | zstd/lib/common/xxhash.h:3128-3177 | The same with a counter that wraps at 2^32. |
| XxHash.State32.DigestStream | zstd/lib/common/xxhash.h:3182-3198 | The digest is the one-shot hash for every total length. |
| XxHash.Hash64InPieces | zstd/lib/common/xxhash.h:3573-3641 | For every way of cutting an input into updates the digest is the hash of the whole, for any mixing functions on 8-byte words. |
| XxHash.Hash32InPieces | zstd/lib/common/xxhash.h:3128-3198 | The same on 4-byte words. |
| XxStreams.XXH64InPieces | zstd/lib/common/xxhash.h:3361-3641 | The same for the mixing functions of XXH64. |
| XxStreams.XXH32InPieces | zstd/lib/common/xxhash.h:2841-3198 | The same for the mixing functions of XXH32. |
| XxStreams.XXH64 | zstd/lib/common/xxhash.h:3361-3516 | The constants, rounds and final mix of XXH64, on 8-byte words. |
| XxStreams.XXH32 | zstd/lib/common/xxhash.h:2841-3070 | The constants, rounds and final mix of XXH32, on 4-byte words. |
| XxVectors.Empty64 | zstd/lib/common/xxhash.h:3485-3516 | The known hash of the empty input. |
| XxVectors.Short64 | zstd/lib/common/xxhash.h:3439-3516 | The known hash of a word, a half word and three bytes, with a seed. |
| XxVectors.Stripe64 | zstd/lib/common/xxhash.h:3485-3516 | The known hash of one stripe, with a seed: the four lanes and their merging. |
| XxVectors.Empty32 | zstd/lib/common/xxhash.h:3040-3070 | The known hash of the empty input. |
| XxVectors.Short32 | zstd/lib/common/xxhash.h:2950-3070 | The known hash of a word and three bytes, with a seed. |
| XxVectors.Stripe32 | zstd/lib/common/xxhash.h:3040-3070 | The known hash of one stripe, with a seed. |
| Pages.PagesHold | lib/memory.h:32-34 | The pages hold the size, and one page fewer would not. |
| Pages.PagesBack | lib/memory.c:81-82 | The number of pages computed from the footer's address is the one the block was obtained with. |
| Pages.Os.Alloc | lib/memory.c:41-48 | A block answered by the system is disjoint from all blocks in use. |
| Pages.Os.Free | lib/memory.c:50-53 | A block goes back with its own number of pages, and its footer with it. |
| Pages.Os.SegmentNew | lib/memory.c:61-70 | The block has room for the data below its footer, which links to the segment before. |
| Allocator.BackwardsAt | lib/memory.c:80-87 | Following the chain meets every block exactly once. |
| Allocator.FreeRound | lib/memory.c:80-87 | A round gives one block back after reading its footer. |
| Allocator.SegmentFree | lib/memory.c:72-89 | Every block of the chain is given back exactly once with its number of pages, no footer of a freed block is read, and the result is true exactly if the system took all of them. |
| Allocator.FootersUntouched | lib/memory.h:207-219 | An allocation touches no footer. |
| Allocator.AllocationsSafe | lib/memory.h:189-219 | After any calls: every nonempty allocation is in usable bytes of a block in use, apart from all others and from every footer. |
| Allocator.ZasterAllocator.constructor | lib/memory.h:152-155 | No segment and no allocation. |
| Allocator.ZasterAllocator.Grow | lib/memory.c:95-101 | One more segment with room for the request. |
| Allocator.ZasterAllocator.Reserve | lib/memory.h:189-198 | The reserved bytes are free; a segment is added exactly when they did not fit; NULL only for a request of 0 bytes without segments. |
| Allocator.ZasterAllocator.Alloc | lib/memory.h:207-219 | The same, and the bytes are taken. |
| Allocator.ZasterAllocator.Free | lib/memory.h:163-171 | Everything goes back once, and the allocator is as new; it aborts exactly if the system refused a block. |
| Allocator.ReserveThenAlloc | lib/memory.h:182-219 | Reserving n bytes and allocating at most n gives the reserved address without another segment. |
| Wildcopy.ChunkCopies | zstd/lib/common/zstd_internal.h:170-195 | A chunk read before it is written is a byte-by-byte copy when the two do not overlap. |
| Wildcopy.FirstBytes | zstd/lib/common/zstd_internal.h:207-215 | Copying more leaves the same first bytes. |
| Wildcopy.CopyRepeats | zstd/lib/decompress/zstd_decompress_block.c:797-824 | A forward copy repeats the bytes at its distance ... |
| Wildcopy.OnlyCopyRepeats | zstd/lib/decompress/zstd_decompress_block.c:797-824 | ... and is the only way to do so. |
| Wildcopy.CopyFurtherBack | zstd/lib/decompress/zstd_decompress_block.c:804-824 | Copying on from a multiple of the distance back goes on with the same repetition. |
| Wildcopy.Written | zstd/lib/common/zstd_internal.h:207-246 | At least the requested bytes, and fewer than 32 more for a nonempty copy. |
| Wildcopy.WildcopyBytes | zstd/lib/common/zstd_internal.h:216-246 | For every permitted distance the memory is that of a byte-by-byte copy of the bytes written. |
| Wildcopy.ShortCopy | zstd/lib/common/zstd_internal.h:223-227 | Also for sources 8 to 15 bytes behind. |
| Wildcopy.LongCopy | zstd/lib/common/zstd_internal.h:228-245 | And for at least 16 bytes apart, in either order. |
| Wildcopy.OverlapCopy8 | zstd/lib/decompress/zstd_decompress_block.c:804-824 | For every offset, 8 bytes as a forward copy would make them, and a source at least 8 bytes back that goes on with the pattern. |
| Wildcopy.CopyMatch | zstd/lib/decompress/zstd_decompress_block.c:1068-1095 | For every offset from 1 on, the match is the byte-by-byte copy, and nothing more than 31 bytes behind it changes. |

## Left out

- FseBlock.WriteNCount: always checks the bounds of the header buffer. That a buffer of `FSE_NCountWriteBound` bytes makes the unchecked stores safe is not proved; with room the bytes are the same.
- FseBlock.CompressUsingCTable: is stated for tables of at most 2^8 cells, where the size that switches bounds checks off is always enough; for larger tables use FseCompress.CompressGeneric with checks.
- HufWeights.WriteCTable: takes at least two symbols; the two parts of the weights' block are written to buffers of exactly the space left and then joined.
- HufWeights.CompressWeights: does not say for which buffer sizes compressible weights are coded, because that follows from the sizes of header and stream in the members it calls.
- SeqStore.TransferSequences: stores lengths and offsets; the copies of the literals, the checks against the window and the sizes of the blocks are not modelled.
- RoundTrips.LengthsOf: the code words that HUF_readCTable assigns to the lengths are not modelled.
- Normalize.Proba: which way a share below 8 cells is rounded is modelled, but stated only to within one cell.
- SeqDecode.DecodeSequences: decodes codes and extra bits with the tables of FseBuild; the decoder's own table format, in which a cell already holds base value and extra bits, is represented by the functions of SeqValues.
- Pool.Resize: not after a shutdown, because the pool's owner frees it then. Pushers that wait for room are not modelled: adding a job is a step whenever there is room.
- Pool.JoinProgresses: jobs are taken to return.
- XxHash.State64.DigestStream: for a total length of 2^64 bytes or more the digest is only described when the wrapped length is at least 32.
- Bitstream.DStream.Reload: after an overrun the C code points the reader at a zero word, which is never read as input again; here the reader is left as it is.
- Workspace alignment and sizes, and the sharing of one scratch buffer: separate arrays are used.
- Endianness, unaligned access, prefetching and processor dispatch.
- DefaultTables.LLDefault: the table builder of the sequences decoder, which repeats that of FSE, is represented by FSE's and by the functions that read base values and extra bits off its cells.
- XXH3, which is compiled out, and the canonical byte order of hashes; the jump-table form of the XXH32 tail.
- ZSTD_execSequence beyond the match within the prefix: literals, dictionaries and the slow paths near the end of a buffer.
- Literals, Huffman coding of literals, the choice of encoding types and the match finders.
- The command line, the tar and file-system declarations.
