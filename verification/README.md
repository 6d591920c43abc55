# KingDB, modelled and proved in Dafny

KingDB is a persistent key-value store: writes gather in a double buffer, are appended to HSTable
files, and are found again through an in-memory multimap from hashed keys to locations. Values may
be compressed part by part with LZ4, entries carry CRC-32C checksums, and a compaction process
rewrites old files while reads go on. This project models that core and proves, for all inputs and
all runs, what it is meant to guarantee.

`dafny verify dfyconfig.toml` checks everything. The modules, bottom up:

| module | models |
|---|---|
| `Bytes`, `Words`, `Bits`, `Orders` | byte sequences, machine words as numbers and as bit vectors, orders and the logical map |
| `Lz4Format`, `Lz4Decoder`, `Lz4Parse`, `Lz4Compressor`, `Lz4Runs` | the LZ4 block format, the word-copying decoder, how an input is cut into sequences, the hash-table compressor that does it, and what it makes of equal bytes |
| `Crc32c`, `XxHash`, `Crc32cValues`, `XxHashValues` | CRC-32C (section 12.1 of RFC 3720) bit by bit, by tables and by matrices; XXH64 one-shot and streaming; published values of both |
| `Coding`, `Format` | integers, entry headers, offset array rows and footers as bytes |
| `Stream`, `StreamWriter` | values written and read in parts, with compression that may be switched off on the way |
| `WriteBuffer`, `WriteBufferProgress` | the double buffer, the flush, the index update and Get, as a protocol of atomic steps; that what is written can be flushed |
| `Storage`, `Compaction`, `CompactionCases` | files, their replay on opening, compaction, and lookups that it changes |
| `HSTable`, `HSTableManager`, `Reopening`, `Recovery` | offset arrays, recovery of a cut file, the manager that appends entries, loading its files again, and lookups in what they leave |
| `Multipart` | values in several parts, from the parts put to the file, the index and back |
| `FilePool`, `ResourceManager` | reference counts of memory maps, size accounting |

Conventions. Pointers are indices; buffers written in place are arrays. Keys in play have distinct
hashes, since the bucket walk does not handle collisions. Checksums and hashes whose internals do
not matter are function parameters (`crc8`, `hash`, the checksum of a stream), and the proofs hold
for every such function. What lies in memory beyond the end of a mapped file is arbitrary.

Where the code does not do what one would expect, the model follows the code and the exact condition
is proved:

- The compressed size recorded with the last of several parts is eight bytes short exactly when
  compression is still on before that part and its frame would not leave room for a header
  (`StreamWriter.RunRecordsRight`). No choice of the compressor avoids it for a value of 64 KB or more,
  and less than 128 KB, put in two parts in which no four bytes repeat
  (`StreamWriter.RecordedSizeCanBeShort`; `StreamWriter.CountingHasNoRepeat` gives such parts).
- Whether an order is the last of its value is told by sizes (util/order.h:52-55). The last order counts
  as last exactly when it does not switch compression off late, and an earlier one exactly when it ends at
  the value's size (`StreamWriter.RunCounts`). After a late switch-off the value never enters the index, and
  with an earlier order that ends at the value's size the bytes stored up to there are taken for it; it is
  found exactly when neither happens (`Multipart.StoreAndLoad`, with the reach of the header in its file as
  below). Both do happen: values in the two parts above are lost, unless the second has eight bytes (`Multipart.LoseTheValue`), and below 64 KB a part
  in which no four bytes repeat, followed by one of eight bytes, is found as eight zeros and the first
  part (`Multipart.TakeFirstForWhole`).
- Decompressing a value in one piece takes at most one megabyte of raw bytes after a switch-off, so it
  is whole exactly when no more of the value is raw (`Stream.OneStepIsWhole`). With the default options
  that case is not met: the one-piece path is taken only for values of up to one megabyte
  (interface/database.cc:61).
- When a value in one piece has its checksum verified, every frame enters the checksum twice
  (algorithm/compressor.cc:126 and 202). A value of one frame passes exactly when the frame leaves the
  checksum of the key unchanged (`Stream.OneFrameVerifies`); of two values of one byte each, under one
  key, at least one is refused (`StreamWriter.OnePieceCanRefuse`).
- The decoders of entry headers and of offset array rows hold the size of what is left of a file in an
  int. From 2^31 bytes up to 2^32 it is negative, and every header and row is refused
  (`Format.HeaderRefused`, `Format.RowRefused`); in general they are read exactly when they are no
  longer than the int says (`Format.HeaderRoundTrip`, `Format.RowRoundTrip`). The consequences for
  loading, recovery and lookups are exact too: `HSTable.OffsetArrayRoundTrip`, `HSTable.RecoverCut`,
  `HSTableManager.EntryRoundTrip`, `HSTableManager.BatchesRefineMap`. For the five sizes from 2^31 on
  the code subtracts from the smallest int, which C++ leaves undefined; the model refuses there.
- The location of an entry is built from an offset that is not cut to 32 bits, so it names the place of
  the entry exactly when the offset is below 2^32 (`HSTableManager.PackedIs`).
- The walk through a bucket stops before its first location, and runs out of a bucket of one location if
  that is refused or has another key (`Storage.WalkIs`). So after a newest entry that is refused an older
  one is given, unless it is the first of the bucket (`HSTableManager.LogWalk`). A location in a file that is
  not there is read through a null map (util/byte_array.h:44-58, storage/format.h:169), which ends the lookup;
  the model calls that `Dangling`.
- After a compaction a bucket goes on ending with the same entry exactly when it meets
  `Compaction.StaysLast` (`Compaction.RewrittenLast`, for any selection of files). For a key of the
  selected files this says that a bucket which ends inside the range lies all inside, and ends with a
  put (`Compaction.SelectedStays`); for another key, that a bucket with a location in a compacted file
  which ends inside the range lies all inside, and ends with the greatest location of those in compacted
  files (`Compaction.UnselectedStays`). Two compactions can bring back an older value
  (`CompactionCases.LookupCanGoBack`), and one can lose a newer value, for good
  (`CompactionCases.NewerCanBeLost`, `CompactionCases.NewerStaysLost`). A delete that is kept because
  its key is not one of the selected files reads as an empty value (`Compaction.SelectionKeepsGet`,
  `Compaction.UnselectedKept`).
- When all files of the range are compacted, a key whose newest entry is a delete keeps a bucket that
  points into removed files (`Compaction.CompactionKeepsGet`); after reopening its answer is right again
  (`Compaction.CompactionThenReopen`). In general a compaction leaves no location in a removed file exactly
  when, for every key of the selected files, the newest entry of the range is a put
  (`Compaction.SoundAfter`, `Compaction.SoundUnlessDeletes`). The next compaction would read such a location
  through a null map (storage/storage_engine.h:684, 804).
- The size recorded for a recovered file is too large by what was cut off behind the last whole entry
  (`HSTable.RecoverFile`).
- An order with an empty key and no value counts for nothing in the write buffer, and a flush waits for a
  live buffer that counts for something (cache/write_buffer.cc:234). What was written can be flushed without
  further writes exactly when the live buffer is empty or counts for something
  (`WriteBufferProgress.RunDrains`, `WriteBufferProgress.DrainsOnlyIf`), and with nonempty keys that is always so
  (`WriteBufferProgress.RunFlushable`).
- Recovery finds a delete without its hash, because the header of a delete never gets one. So a deleted
  key comes back: after recovery a lookup agrees with the whole writes exactly when no delete of the key
  comes after a put of it (`Recovery.RecoverThenLookUp`).
- A comment in algorithm/compressor.h:50-52 gives the first field of a frame header as the size of the
  compressed data; the code stores that size plus the eight bytes of the header, and so does the model.

## Model

| member | source | states |
|---|---|---|
| `Lz4Compressor.RoundTrip` | algorithm/lz4.cc:664-680 | for every input up to the maximum size, decompressing what was compressed, with the original length as target and maximum, gives the input back, with the 16-bit table below the 64 KB limit and the 32-bit table above it |
| `Lz4Compressor.CompressLimitedOutput` | algorithm/lz4.cc:664-680 | with room for the bound it never returns 0, writes no more than the bound, and what it writes is a legal block that stands for the input, with exactly the sequences that the input is cut into; too large an input gives 0 |
| `Lz4Compressor.CompressGeneric` | algorithm/lz4.cc:431-641 | for each table type: 0 for an unsupported size, else, given the bound, a legal block for the input, with every match at least 4 long, at an offset in 1..65535 inside what precedes it; the block is that of the sequences that `Lz4Parse.Parse` cuts the input into, for that table |
| `Lz4Compressor.CompressLoop` | algorithm/lz4.cc:486-625 | the main loop keeps an encoded prefix that expands to the input read so far, stops for lack of room only when given less than the bound, and else has all the sequences of the input |
| `Lz4Compressor.CompressStep` | algorithm/lz4.cc:490-625 | one search, catch-up and run of matches extends that prefix by what is cut there; table entries stay positions before the current one |
| `Lz4Compressor.FindMatch` | algorithm/lz4.cc:494-528 | the skipping search finds exactly the match that the search function gives, and leaves its table; a match is four equal bytes at a position before the current one, within 65535 |
| `Lz4Compressor.CatchUp` | algorithm/lz4.cc:530-531 | stepping back keeps the two positions at the same distance, inside the input and past the anchor, and all bytes stepped over equal, and goes on as long as it can |
| `Lz4Compressor.Count` | algorithm/lz4.cc:412-428 | comparing eight, four, two and one bytes at a time counts exactly the equal bytes up to the limit |
| `Lz4Compressor.NbCommonBytesIsFirstDifference` | algorithm/lz4.cc:303-331 | an eighth of the trailing zero bits of the exclusive or of two words is the position of the first byte in which they differ |
| `Lz4Compressor.WriteMatches` | algorithm/lz4.cc:552-621 | a match and all matches found right after it become sequences without literals, each reproducing the input, and all that are there |
| `Lz4Compressor.TestNextPosition` | algorithm/lz4.cc:599-621 | the positions two before the end of a match and at it are entered in the table, and a match there is taken exactly when it is equal and within distance |
| `Lz4Compressor.StartSequence` | algorithm/lz4.cc:533-550 | the literal check passes whenever the bound is given, and the literals are written in their encoding |
| `Lz4Compressor.FinishBlock` | algorithm/lz4.cc:627-641 | the last check passes whenever the bound is given, and the block is complete and stands for the whole input |
| `Lz4Compressor.EncodedSizeBound` | algorithm/lz4.h:103 | sequences that expand to n bytes take at most n + n/255 bytes |
| `Lz4Compressor.LiteralsHaveRoom` | algorithm/lz4.cc:534-538 | the literal check cannot fail within the bound |
| `Lz4Compressor.LastLiteralsFit` | algorithm/lz4.cc:630-632 | nor can the check of the last literals |
| `Lz4Compressor.EncodesDecodes` | algorithm/lz4.cc:876-1042 | what the compressor may write decodes to the input it stands for |
| `Lz4Compressor.PutPosition` | algorithm/lz4.cc:383-397 | the entry of a hash becomes the position, cut to the width of the table, and no other entry changes |
| `Lz4Parse.SearchTakesFirst` | algorithm/lz4.cc:494-528 | the search takes the first position on its way, with steps that grow by one every 64 tries, whose table entry has the same four bytes and is not too far back |
| `Lz4Parse.SearchIsComplete` | algorithm/lz4.cc:494-528 | a search that finds nothing has tried every position on its way up to the limit, and none of them could be taken |
| `Lz4Parse.HashOfPowers` | algorithm/lz4.cc:373-379 | the hashes of three powers of two, with 13 and with 12 bits, which give the bits of the multiplier |
| `Lz4Runs.ParseOfEqual` | algorithm/lz4.cc:431-641 | fourteen or more equal bytes are cut into one literal and one match with offset 1 that leaves five last literals |
| `Lz4Runs.CompressEqual` | algorithm/lz4.cc:664-680 | n equal bytes, from 14 up to the maximum size, are compressed to exactly 10 + (n + 230) / 255 bytes |
| `Lz4Runs.FrameOfEqual` | algorithm/compressor.cc:15-65 | and stored in a frame of that size and its header |
| `Lz4Decoder.DecompressSafePartial` | algorithm/lz4.cc:1050-1053 | on every input whose first token can be read, it returns and writes what the byte-by-byte reading of the format gives, and its error codes are the position of the error |
| `Lz4Decoder.DecodeInvertsEncode` | algorithm/lz4.cc:915-1037 | reading back the encoding of any legal block gives the data it stands for |
| `Lz4Decoder.SequenceStep` | algorithm/lz4.cc:921-1030 | one round of the main loop does one step of the byte-by-byte decoding |
| `Lz4Decoder.CopyRepeated` | algorithm/lz4.cc:1007-1030 | for every offset and length, the copy by words ends with the bytes of the copy by bytes, also next to the end of the output |
| `Lz4Decoder.StartMatch` | algorithm/lz4.cc:1008-1018 | four bytes and then four bytes from the table's distance continue the period of the offset, touch nothing before them, and leave the reading position at a multiple of the offset at least eight back |
| `Lz4Decoder.WordCopyIsPeriodic` | algorithm/lz4.cc:1018-1030 | copying from a multiple of a period continues that period |
| `Lz4Decoder.ReadRunLoop` | algorithm/lz4.cc:923-934 | the loop reads the literal length that the recursive reading gives |
| `Lz4Decoder.ReadMatchRunLoop` | algorithm/lz4.cc:963-973 | the loop reads the match length, or stops where the reading fails |
| `Lz4Decoder.WildCopyLiterals` | algorithm/lz4.cc:956 | literals copied eight bytes at a time arrive whole, whatever is written after them |
| `Lz4Format.ExtensionSize` | algorithm/lz4.cc:539-546 | the number of bytes that extend a length |
| `Lz4Format.PeriodicIsCopyMatch` | algorithm/lz4.cc:1007-1030 | output that continues with a period is the byte-by-byte copy of a match |
| `Crc32c.Extend` | algorithm/crc32c.cc:296-339 | for any alignment and size, the slicing loops give the bitwise CRC-32C |
| `Crc32c.Step4IsFourByteSteps` | algorithm/crc32c.cc:305-312 | four table lookups are four byte steps |
| `Crc32c.Step1IsByteStep` | algorithm/crc32c.cc:301-304 | one table lookup is eight bit steps |
| `Crc32c.TableIsZeroBits` | algorithm/crc32c.cc:26-289 | table k applied to a byte is that byte followed by k zero bytes |
| `Crc32c.ExtendConcat` | algorithm/crc32c.h:32-35 | extending by one string and then another is extending by their concatenation |
| `Crc32c.StreamedIsExtended` | algorithm/crc32c.h:88-94 | however a string is cut, streaming its pieces gives its checksum |
| `Crc32c.MatrixTimes` | algorithm/crc32c.cc:344-354 | the product of a matrix and a vector applies the linear operator whose columns it holds |
| `Crc32c.MatrixSquare` | algorithm/crc32c.cc:356-361 | the square of an operator's matrix is that of the operator applied twice |
| `Crc32c.OneZeroBit` | algorithm/crc32c.cc:391-397 | the first matrix is the operator of one zero bit |
| `Crc32c.Combine` | algorithm/crc32c.cc:363-430 | the even/odd loop over the bits of the length appends that many zero bytes to the first checksum and adds the second |
| `Crc32c.CombineIsConcat` | algorithm/crc32c.cc:363-430 | for all strings a and b, combining their checksums with the length of b gives the checksum of a + b |
| `Crc32c.CombineChecksums` | algorithm/crc32c.cc:363-430 | Combine, run on the checksums of a and b and the length of b, returns the checksum of a + b |
| `Crc32c.ExtendInjective` | algorithm/crc32c.cc:296-339 | extending different checksums by the same bytes keeps them different |
| `Crc32cValues.PolyIsCastagnoli` | algorithm/crc32c.cc:391-392 | the word of the polynomial is the reversal of the generator polynomial of section 12.1 of RFC 3720, given by its exponents |
| `Crc32cValues.ChecksumOfDigits` | algorithm/crc32c.cc:296-339 | the checksum of the digits 1 to 9 is 0xE3069283 |
| `Crc32cValues.ChecksumOfZeros` | algorithm/crc32c.cc:296-339 | the checksum of 32 zero bytes is 0x8A9136AA, as in section B.4 of RFC 3720 |
| `Crc32cValues.TableStarts` | algorithm/crc32c.cc:26-27 | the first table starts with 0 and 0xF26B8303 |
| `XxHash.Xxh64` | algorithm/xxhash.cc:321-424 | the one-shot loops compute the hash of the input from stripes, tail and avalanche |
| `XxHash.State.Update` | algorithm/xxhash.cc:670-732 | an update by any chunk, through the carry buffer, leaves the state that stands for the longer message |
| `XxHash.State.IntermediateDigest` | algorithm/xxhash.cc:746-810 | the digest is the one-shot hash of the message so far, and does not change the state |
| `XxHash.State.constructor` | algorithm/xxhash.cc:502-513 | a reset state stands for the empty message |
| `XxHash.HashChunks` | algorithm/xxhash.cc:670-810 | for every seed and every chopping of a message, the digest is the hash of the whole message |
| `XxHash.StreamedAndAtOnce` | algorithm/xxhash.cc:426-453 | for XXH64 itself, streaming a message in any chunks and hashing it in one go give the same |
| `XxHash.AbsorbMore` | algorithm/xxhash.cc:689-723 | absorbing stripes in two goes is absorbing them in one |
| `XxHashValues.RotlIs` | algorithm/xxhash.cc:146-147 | rotation by r moves the high r bits of a word below the others: the low part times 2^r plus the high part |
| `XxHashValues.HashOfNothing` | algorithm/xxhash.cc:321-424 | the hash of the empty message with seed 0 is 0xEF46DB3751D8E999 |
| `XxHashValues.HashOfLetter` | algorithm/xxhash.cc:321-424 | that of the letter a is 0xD24EC4F1A98C6E5B |
| `XxHashValues.HashWithSeed` | algorithm/xxhash.cc:321-424 | that of the word xxhash with seed 20141025 is 0xB559B98D844E0635 |
| `XxHashValues.HashOfBuffer` | algorithm/xxhash.cc:321-424 | that of the first 14 bytes of the buffer of XXH64's own sanity check, with its seed 2654435761, is 0x5B9611585EFCC9CB |
| `XxHashValues.HashOfSentence` | algorithm/xxhash.cc:321-424 | that of the 39 bytes "Nobody inspects the spammish repetition" with seed 0 is 0xFBCEA83C8A378BF1 |
| `Coding.EncodeVarint64` | algorithm/coding.cc:117-126 | the loop writes the seven-bit digits of a number in place and nothing else |
| `Coding.EncodeVarint32IsVarint` | algorithm/coding.cc:83-109 | the unrolled encoder writes the same bytes |
| `Coding.GetVarint` | algorithm/coding.cc:143-199 | both decoders read what the digits say, modulo their width, and refuse an unfinished or too long number |
| `Coding.ReadVarintReads` | algorithm/coding.cc:117-199 | reading gives back what was written, wherever it stands |
| `Coding.VarintLength` | algorithm/coding.cc:134-141 | the length computed is that of the encoding |
| `Coding.Fixed64Reads` | algorithm/coding.cc:27-68 | fixed-width integers read back |
| `Stream.Compress` | algorithm/compressor.cc:15-65 | every nonempty part up to the maximum size becomes a frame that stands for it, at most eight bytes longer, with the block of LZ4 unless that is longer than the part, and the raw part exactly then; an empty one becomes a header of zeros, and a larger one is refused |
| `Stream.Uncompress` | algorithm/compressor.cc:75-137 | a frame is uncompressed to what it stands for, a corrupt block is an error, and the end is recognized |
| `Stream.FrameReads` | algorithm/compressor.cc:75-137 | a frame, compressed or raw, reads back wherever it stands, and is never taken for a switch-off |
| `Stream.Reader.Begin` | interface/multipart.h:38-50 | the first part is at hand, or the value is empty and read |
| `Stream.Reader.Next` | interface/multipart.h:65-154 | each step hands out the next bytes of the value, and ends exactly when all have been handed out; an all-frames value is OK only if its checksum is the stored one |
| `Stream.Reader.ReadAll` | interface/multipart.h:38-154 | the parts concatenate to the stored value through compressed frames, raw frames and the switch-off |
| `Stream.UncompressByteArray` | algorithm/compressor.cc:140-249 | all frames are uncompressed, and then at most one step of the raw bytes; with verification, a value that is all frames is OK only if the checksum with every frame twice is the stored one |
| `Stream.OneStepIsWhole` | algorithm/compressor.cc:213-245 | that is the whole value exactly when no more than one step of it is raw |
| `Stream.OneFrameVerifies` | algorithm/compressor.cc:160-203 | a value of one frame, with the right checksum stored, is verified if and only if the frame does not change the checksum |
| `StreamWriter.OnePieceCanRefuse` | algorithm/compressor.cc:160-203 | whatever the compressor, of two one-byte values under one key at least one is refused with the right checksum stored |
| `StreamWriter.MustDisableMeans` | interface/database.cc:196-200 | the unsigned subtractions never wrap, and compression is disabled exactly when the frame would leave too little room for a header and the rest |
| `StreamWriter.PlaceKeeps` | interface/database.cc:164-209 | each part goes where the one before it ended, and while compression is on, offset + raw bytes left + 8 stays within the value and its padding |
| `StreamWriter.PutKeeps` | interface/database.cc:128-276 | the guard against writing outside of the allocated memory is never taken, and the checksum is that of the key and all bytes stored |
| `StreamWriter.RecordedSize` | interface/database.cc:237-248 | the recorded compressed size is where the stored bytes end if and only if the last of several parts did not switch compression off; else it is 8 less |
| `StreamWriter.SwitchesAtEndWhen` | interface/database.cc:196-209 | the last part switches off if and only if it is not the first, compression is on, and the frame and a header do not fit the reserved space |
| `StreamWriter.RecordedSizeCanBeShort` | interface/database.cc:241-246 | every run that puts 64 KB or more, and less than 128 KB, in two parts in which nothing repeats ends at size + 16 and records size + 8, whatever legal frames the compressor gives |
| `StreamWriter.OnlyRaw` | algorithm/compressor.cc:15-65 | a part in which no four bytes repeat can only be framed raw |
| `StreamWriter.CountingHasNoRepeat` | algorithm/lz4.cc:431-641 | such parts exist for every size up to 195075 |
| `StreamWriter.OnePart` | util/order.h:44-59 | a value put in one part is recorded right, and its order is self-contained |
| `StreamWriter.Database.PutPartValidSize` | interface/database.cc:128-276 | refines the step function for the frame that compression gives |
| `StreamWriter.Database.PutPart` | interface/database.cc:87-125 | a part beyond the value is refused; else it is cut and put whole, piece after piece |
| `StreamWriter.Database.PutValue` | interface/multipart.h:205-209 | a value put part by part is stored whole in its space, and the orders handed to the write buffer are those of the run of its pieces |
| `StreamWriter.RunReady` | interface/database.cc:164-209 | in every run of puts, whatever frames compression gives, each piece finds the writer in the state that its offset calls for, with the space it needs |
| `StreamWriter.RunRecordsRight` | interface/database.cc:237-248 | in every run, the recorded compressed size is right if and only if the last piece is the only one, or compression was off before it, or its frame and a header fit the reserved space; else it is 8 less |
| `StreamWriter.RunLays` | interface/database.cc:164-209 | in every run each order starts where the ones before it end and stays inside the reserved space, and only the last may record a compressed size |
| `StreamWriter.RunCounts` | util/order.h:44-59 | in every run the last order counts as last if and only if it does not switch compression off late, an earlier one if and only if it ends at the value's size, and an order is self-contained if and only if it is the first and counts as last |
| `StreamWriter.FirstCanCountAsLast` | util/order.h:44-59 | in every run that puts less than 64 KB in two parts, the first without repeats and the second of eight bytes, the first order is self-contained, with eight zeros and the first part |
| `StreamWriter.CrcComposes` | interface/database.cc:250-257 | CRC-32C over the key and the parts is CRC-32C over their concatenation |
| `WriteBuffer.WriteKeepsInv` | cache/write_buffer.cc:155-225 | a write keeps the invariant that the history is what was cleared, then the copy buffer, then the live buffer |
| `WriteBuffer.SwapKeepsInv` | cache/write_buffer.cc:243-247 | so does the swap, readers in either buffer included |
| `WriteBuffer.FlushKeepsInv` | storage/storage_engine.h:295-311 | so does writing the copy buffer to the log, which leaves its locations pending |
| `WriteBuffer.IndexKeepsInv` | storage/storage_engine.h:345-364 | so does the update of the index by one location |
| `WriteBuffer.ClearKeepsInv` | cache/write_buffer.cc:265-313 | so does clearing the copy buffer once no reader is in it |
| `WriteBuffer.LiveScanKeepsInv` | cache/write_buffer.cc:38-69 | a live scan that finds the key has an answer of the logical map, and one that misses knows where the key's writes are |
| `WriteBuffer.CopyReaderKeepsInv` | cache/write_buffer.cc:71-121 | registering with, picking and leaving the copy buffer keeps the reader count and what the reader knows |
| `WriteBuffer.ScanCopyKeepsInv` | cache/write_buffer.cc:83-110 | the same for the scan of the copy buffer, even after a swap has made it the live one |
| `WriteBuffer.ReadStorageKeepsInv` | interface/database.cc:15-29 | after both misses, storage answers as the logical map does at some instant since the Get began |
| `WriteBuffer.StorageAnswers` | storage/storage_engine.h:424-456 | the last location of a bucket, in the middle of an index update, answers for all writes that have left the buffers |
| `WriteBuffer.StepKeepsInv` | cache/write_buffer.cc:23-319 | every step of every thread keeps the invariant |
| `WriteBuffer.RunKeepsInv` | cache/write_buffer.cc:23-319 | the invariant holds in every state of every run |
| `WriteBuffer.GetLinearizes` | interface/database.cc:9-33 | in every run, what a Get returns is the logical map's answer at some instant between its first and its last step |
| `WriteBuffer.GetsHappen` | cache/write_buffer.cc:38-69 | a run in which a Get right after a write returns what was written |
| `WriteBufferProgress.RunDrains` | cache/write_buffer.cc:228-319 | every run whose live buffer is empty or counts for something goes on, by steps of the flush and of readers that are in the copy buffer already, to a state in which the log holds all writes, the index lists all of them and both buffers are empty |
| `WriteBufferProgress.DrainsOnlyIf` | cache/write_buffer.cc:234-242 | no other run does, unless something is written |
| `WriteBufferProgress.RunFlushable` | cache/write_buffer.cc:155-225 | with nonempty keys every state of every run is such |
| `WriteBufferProgress.GetFromStorage` | interface/database.cc:15-29 | from such a state a Get misses in both buffers, and storage gives it the answer of the logical map |
| `WriteBufferProgress.WrittenIsStored` | cache/write_buffer.cc:228-319 | so, with nonempty keys, every run goes on without writes to a state where storage answers a new Get with what was written |
| `WriteBufferProgress.GetFromCopy` | cache/write_buffer.cc:71-121 | a run in which the copy buffer answers a Get with what was written |
| `Storage.LoadOrder` | storage/hstable_manager.h:942-1012 | the files come out sorted by timestamp, then id, each once |
| `Storage.SortedUnique` | storage/hstable_manager.h:942-1012 | there is one such order |
| `Storage.LoadDatabase` | storage/hstable_manager.h:1014-1039 | each bucket of the index lists its locations in replay order |
| `Storage.WalkIs` | storage/storage_engine.h:439-453 | the walk gives what the last location gives among those it tries that give something; it tries all but the first, or the only one, and if none gives anything it ends without, running out of a bucket of one |
| `Storage.GetReadsLast` | storage/storage_engine.h:424-456 | a lookup reads the last entry for the key in the replay |
| `Compaction.ScanBucket` | storage/storage_engine.h:672-701 | going through a bucket backwards, exactly the superseded entries and the deletes of the range are to be deleted |
| `Compaction.DetermineLocations` | storage/storage_engine.h:647-703 | the same over all hashed keys given, and the files to compact are those of the range that share one of them |
| `Compaction.Classify` | storage/storage_engine.h:661-703 | an entry of the range is kept if and only if it is the newest of the range for its key, and a put |
| `Compaction.BuildOrders` | storage/storage_engine.h:796-921 | the orders are those of the entries not deleted, file by file |
| `Compaction.MaximumTimestamp` | storage/storage_engine.h:800-810 | the timestamp is the greatest of the range |
| `Compaction.WriteFiles` | storage/storage_engine.h:924-960 | the new files hold the orders in order, under new ids, all with that timestamp |
| `Compaction.SurvivorsAnswer` | storage/storage_engine.h:687-703 | what is kept answers every lookup as the whole range does, deleted keys included |
| `Compaction.ShiftLocations` | storage/storage_engine.h:963-982 | each bucket of the new locations lists those of its orders, in order |
| `Compaction.UpdateIndex` | storage/storage_engine.h:990-1036 | each bucket with new locations becomes these and then the locations after the range; others stay |
| `Compaction.RewrittenLast` | storage/storage_engine.h:1003-1028 | for every selection and every bucket, the last location after the compaction is the image of the last one before it if and only if: not rewritten, its file is not compacted; rewritten, it ended outside the range, or lay all inside and ended with what is kept last |
| `Compaction.SelectedStays` | storage/storage_engine.h:647-703 | for a key of the selected files: if and only if a bucket that ends inside the range lies all inside, and ends with a put |
| `Compaction.UnselectedStays` | storage/storage_engine.h:861-1028 | for a key that is in no selected file: if and only if a bucket that has a location in a compacted file and ends inside the range lies all inside, and ends with the greatest location, by file and offset, of those in compacted files |
| `Compaction.SelectionKeepsGet` | storage/storage_engine.h:990-1076 | under that condition the last location gives what it gave, for every key, and a lookup of the key it holds does too, except that a delete that is kept reads as an empty value |
| `Compaction.UnselectedKept` | storage/storage_engine.h:861-905 | every entry of a compacted file whose hashed key is not in a selected file is kept, however old |
| `Compaction.IndexedLists` | storage/hstable_manager.h:1014-1039 | the index of an opened database lists every entry once, in the bucket of its key |
| `Compaction.StepKeepsGet` | storage/storage_engine.h:990-1036 | after any number of buckets has been rewritten, every lookup gives what it gave before |
| `Compaction.CompactionKeepsGet` | storage/storage_engine.h:990-1076 | after the files of the range are removed, every lookup gives what it gave before, except that a key whose newest entry is a delete of the range points nowhere |
| `Compaction.RewrittenStays` | storage/storage_engine.h:1063-1076 | no rewritten bucket points into a removed file |
| `Compaction.SoundAfter` | storage/storage_engine.h:1003-1076 | after any compaction every location of the index is that of an entry with its hash if and only if no bucket left as it was has a location in a compacted file |
| `Compaction.SoundUnlessDeletes` | storage/storage_engine.h:687-703 | when the buckets list all entries: if and only if, for every hashed key of the selected files, the newest entry of the range is a put |
| `Compaction.PouringKeepsGet` | storage/storage_engine.h:1040-1059 | pouring what was written meanwhile changes no lookup |
| `Compaction.CompactionThenReopen` | storage/hstable_manager.h:942-1047 | replaying the files left by compaction gives every key, deleted ones included, the answer of replaying the files before it |
| `Compaction.RunCompaction` | storage/storage_engine.h:577-1076 | for any selected files: the files that share hashes with them are replaced by new ones that hold what is kept, and the index is rewritten |
| `Compaction.WholeRun` | storage/storage_engine.h:577-1076 | if all files up to the end of the range are selected, and the others are newer, every lookup is kept but for dangling deletes, and so is every answer after reopening |
| `Compaction.StorageEngine.Compact` | storage/storage_engine.h:539-1076 | both of these, for the engine's own files and index |
| `CompactionCases.TwoPutsScope` | storage/hstable_manager.h:1014-1039 | two files with a put of the same key each, as opened, are such a state for the first file |
| `CompactionCases.LookupCanGoBack` | storage/storage_engine.h:1003-1028 | from there, every compaction of the first file and then of the second ends with the older value |
| `CompactionCases.GoBack` | storage/storage_engine.h:539-1076 | the two compactions, as they run: lookups before and between them give the newer value, and after them the older one |
| `CompactionCases.NewerCanBeLost` | storage/storage_engine.h:672-683 | every compaction of a third file that shares another key with the first only makes the lookup answer with the older value |
| `CompactionCases.CompactThird` | storage/storage_engine.h:539-1076 | that compaction, as it runs, and the lookups before and after it |
| `CompactionCases.NewerStaysLost` | storage/storage_engine.h:800-810 | and so does every opening of the database after it |
| `Format.HeaderRoundTrip` | storage/format.h:148-255 | reading a header gives back what was written, with or without checking it, if and only if it is not cut and no longer than the int that holds the size of the data says |
| `Format.HeaderRefused` | storage/format.h:167-200 | with 2^31 bytes or more at hand, and fewer than 2^32, nothing is read as a header |
| `Format.RowRoundTrip` | storage/format.h:497-532 | the same for a row of an offset array |
| `Format.RowRefused` | storage/format.h:505-520 | the same for rows |
| `Format.FooterRoundTrip` | storage/format.h:467-494 | a footer reads back wherever it stands |
| `Format.FooterBytes` | storage/format.h:480-491 | the fields of a footer and the magic number stand in it as these bytes |
| `HSTable.WriteOffsetArray` | storage/hstable_manager.h:381-428 | appends the rows, the footer and their checksum |
| `HSTable.LoadFile` | storage/hstable_manager.h:1049-1099 | a file with a valid footer has its rows inserted in order; else the load fails |
| `HSTable.OffsetArrayRoundTrip` | storage/hstable_manager.h:381-428 | loading a file ended by an offset array gives exactly the rows written if and only if there are none, or array and footer are below 2^31 bytes; else the load fails |
| `HSTable.RowsDecode` | storage/hstable_manager.h:1073-1090 | rows in a file, with less than 2^31 bytes after them, are read if and only if there are none or less than 2^31 bytes are left from the first one on |
| `HSTable.ScanFindsPrefix` | storage/hstable_manager.h:1101-1162 | wherever a file is cut less than 2^31 bytes after its header, the scan finds exactly the entries that end at or before the cut |
| `HSTable.ScanFindsNothing` | storage/hstable_manager.h:1120-1130 | with 2^31 bytes or more, and below 2^32, the scan finds nothing, whatever the file holds |
| `HSTable.AnyCut` | storage/hstable_manager.h:1101-1185 | every cut of every file of self-contained entries, with anything in memory after it, is one that the scan and the recovery below are proved for |
| `HSTable.RecoverFile` | storage/hstable_manager.h:1101-1185 | what is scanned goes to the index, and the file is truncated there and given an offset array, unless nothing was found; the size recorded exceeds the real one by what was cut off |
| `HSTable.RecoverCut` | storage/hstable_manager.h:1101-1185 | recovery of a cut file succeeds if and only if some entry is whole and less than 2^31 bytes follow the file header, and then leaves a file that loads with the rows of the whole entries; the size recorded is right if and only if no entry was cut |
| `Recovery.RecoveredBucket` | storage/hstable_manager.h:694-710 | a bucket of a hash other than 0 gets, in order, the whole puts with it and no deletes |
| `Recovery.RecoveredLookup` | storage/hstable_manager.h:1101-1185 | a lookup after recovery gives the last whole put of the key, or nothing, whatever deletes came after it |
| `Recovery.RecoveryAgrees` | storage/hstable_manager.h:694-710 | so it agrees with the whole writes if and only if the last of them for the key is a put, or none of them is |
| `Recovery.RecoverThenLookUp` | storage/hstable_manager.h:1101-1185 | the same for what recovery leaves of a file cut anywhere, with the size it records |
| `HSTableManager.EntryRoundTrip` | storage/storage_engine.h:459-521 | for every file size, reading an entry gives back the order that was written if and only if its header is no longer than the int that holds the rest of the file says; else an error |
| `HSTableManager.EntryRefused` | storage/storage_engine.h:486-489 | with 2^31 bytes or more left, and fewer than 2^32, no entry is read |
| `HSTableManager.PackedIs` | storage/hstable_manager.h:669-671 | a location names the place of its entry if and only if 32 bits hold the offset |
| `HSTableManager.Manager.OpenNewFile` | storage/hstable_manager.h:260-290 | a new file gets the next id and a header, the log stays readable, and every file before it has been closed with its rows |
| `HSTableManager.Manager.FlushCurrentFile` | storage/hstable_manager.h:312-358 | what was in the buffer is on disk, at the locations given out, and the file stays open exactly when it is below its size and no new one is forced |
| `HSTableManager.Manager.CloseCurrentFile` | storage/hstable_manager.h:296-310 | the file ends, after all entries, in an offset array of exactly the rows of the log's entries in it: hash and low 32 bits of the offset, in order |
| `HSTableManager.Manager.Append` | storage/hstable_manager.h:628-712 | an entry stands at the end of the buffer, which its location and its row name by the low 32 bits of the offset |
| `HSTableManager.Manager.WriteOrders` | storage/hstable_manager.h:714-847 | after a batch, across flushes and new files, every entry ever written is on disk, the locations given out are those of the batch in order, every closed file has its rows, and no entry starts beyond the maximum size of a file |
| `HSTableManager.WriteBatches` | storage/storage_engine.h:295-376 | batch after batch, the log is all orders in order and each bucket lists its locations in order |
| `HSTableManager.BatchesRefineMap` | storage/storage_engine.h:424-521 | for every sequence of batches, the last location of a key's bucket is that of the last order for the key, and, with an offset below 2^32, reads as it if and only if the header fits the int that holds the rest of the file |
| `HSTableManager.Manager.Close` | storage/hstable_manager.h:99-105 | the buffer is written, and every file is closed with its rows |
| `Reopening.ClosedLoads` | storage/hstable_manager.h:1049-1099 | a closed file loads with exactly the rows of its entries if and only if an int can hold the size of their array; else the load fails |
| `Reopening.RowsFollow` | storage/hstable_manager.h:1014-1039 | the rows of all files, entered file by file, make the index that lists the entries of the log in order |
| `Reopening.LoadFiles` | storage/hstable_manager.h:1014-1039 | loading succeeds if and only if every file loads, and enters their rows file by file |
| `Reopening.Reopen` | storage/hstable_manager.h:942-1047 | the files of a closed manager all load if and only if every array fits an int, and the index then follows the log |
| `Reopening.WriteAndReopen` | storage/hstable_manager.h:99-1047 | for every sequence of batches, written, closed and loaded again, the new index holds all the writes as the old one did |
| `HSTableManager.LogWalk` | storage/storage_engine.h:424-521 | whichever entries of a key are refused, a lookup gives the last one that is not, unless that is the first of a longer bucket; else nothing, and a bucket of one is run out of |
| `HSTableManager.LastPartHeaderFits` | storage/hstable_manager.h:551-579 | the header a last part writes has the size of the one the first part reserved, so the corruption branch is never taken |
| `Multipart.EntryWriter.WriteFirst` | storage/hstable_manager.h:628-700 | a first part stands at the end of the file after its header and key, with the space of its value reserved, and the size of its header is kept |
| `Multipart.EntryWriter.WriteLater` | storage/hstable_manager.h:515-579 | a later part goes right after the content, and the header is written anew exactly with an order that counts as last |
| `Multipart.EntryWriter.WriteOrder` | storage/hstable_manager.h:775-842 | an entry is opened by a first order, extended by later ones and entered in the index by the one that counts as last; an order without a location is dropped |
| `Multipart.OrdersBecome` | storage/hstable_manager.h:775-842 | whatever the orders, the entry is in the index from the first order on that counts as last, with the header of that order and the content up to it, and not before |
| `Multipart.RunCounted` | util/order.h:52-55 | in every run, the first order that counts as last is the one that ends early at the value's size, if any; else it is the last one, or none if that switches compression off late |
| `Multipart.EnteredReads` | storage/storage_engine.h:459-521 | an entry that is in the index reads back with its content and sizes if and only if its header fits the int that holds the rest of the file |
| `Multipart.StoreAndLoad` | storage/hstable_manager.h:714-847 | for every split into nonempty parts, whatever frames compression gives and whatever else is written in between: a lookup and MultipartReader give the value if and only if no earlier order ends at its size and the last does not switch off late; in the first case they give what was stored up to that order, and in the second the value is never indexed; each if and only if the header is in reach, else the entry is refused |
| `Multipart.TakeFirstForWhole` | storage/hstable_manager.h:775-842 | for the compressor as it is, less than 64 KB in two parts, the first without repeats and the second of eight bytes, are found as eight zeros and the first part |
| `Multipart.LoseTheValue` | storage/hstable_manager.h:819-842 | for the compressor as it is, 64 KB or more, and less than 128 KB, in two parts without repeats are never indexed, unless the second has eight bytes: then they are found as the frame of the first |
| `FilePool.FileManager.GetFile` | util/filepool.h:52-128 | the handle given out is for the file and size asked for and mapped, the map that is there already if there is one, and each file and size is held once, with as many references as handles out; the maps do not get more than one above the maximum unless none of them is unused |
| `FilePool.FileManager.ReleaseFile` | util/filepool.h:131-147 | one handle is taken back, and the last one leaves the resource unused and mapped |
| `FilePool.FileManager.DropUnused` | util/filepool.h:63-70 | what is unmapped is no map of a handle out |
| `FilePool.FileManager.HandlesAreMapped` | util/filepool.h:52-147 | the map of every handle out is mapped, at every time |
| `ResourceManager.FileResourceManager.SetFileSize` | storage/resource_manager.h:85-98 | the total and uncompacted counters stay the sums over all files and over the files not compacted |
| `ResourceManager.FileResourceManager.SetFileCompacted` | storage/resource_manager.h:117-130 | the same |
| `ResourceManager.FileResourceManager.ClearAllDataForFileId` | storage/resource_manager.h:64-78 | the same |
| `ResourceManager.FileResourceManager.SetFileLarge` | storage/resource_manager.h:105-110 | the file becomes large and compacted, and both counters stay the sums |
| `ResourceManager.FileResourceManager.GetFileSize` | storage/resource_manager.h:80-83 | the same, though an unknown file gets registered with size 0 |
| `ResourceManager.FileResourceManager.CountersAreSums` | storage/resource_manager.h:187-207 | the 64-bit counters are exactly these sums as long as they fit |

## Left out

- The network server and client, the memcached protocol, configuration, options, logging, benchmarks: no deep invariants.
- File system calls, fsync, memory mapping and disk space: a file is a byte sequence, a directory a map; whether a file opens is a parameter.
- LZ4 dictionaries, streaming, the `fast` and obsolete entry points, 32-bit and big-endian variants: KingDB does not use them.
- Lz4Compressor.CompressLimitedOutput: claims nothing about output limits below the compress bound, because KingDB always gives the bound; the correctness of a block does not rest on the hash, only where matches are found.
- Lz4Decoder.DecompressSafePartial: an offset of 0, which the format does not allow and the code does not check, copies unwritten output, and nothing is claimed for it; the first token has to be inside the input, since the code reads it unchecked.
- Crc32c.TableIsZeroBits: the tables are defined from the polynomial, not from the literals in the source, of which the first two are compared (`Crc32cValues.TableStarts`).
- XxHash.State.Update: a chunk is shorter than 2^31 bytes, because the length is an int there.
- StreamWriter.Database.PutPart: parts are nonempty (unless the value is) and sent in order, a value with its padding is below 2^64 bytes, and the maximum part size is one that opening a database accepts (interface/database.h:148-163).
- Multipart.StoreAndLoad: the value is not large (storage/hstable_manager.h:431-513), its entry starts below 2^32 in its file, one thread sends its parts in order and the write buffer hands them on in order, and no part comes so late that the file is closed before it (storage/hstable_manager.h:520-524); lookups are those of the running database, since the row that a first part leaves in the offset array (storage/hstable_manager.h:672) counts only when the files are loaded again.
- WriteBuffer.GetLinearizes: the live scan is one step, although the code scans without a lock; the index takes the locations of a flush bucket by bucket in any order, where the code goes by hash; no compaction runs; buffer sizes do not overflow.
- Storage.GetReadsLast: keys in play have distinct hashes.
- Compaction.StorageEngine.Compact: which files are selected is a parameter, where the code takes uncompacted files by id and size; entries are self-contained and not large, no bucket points into removed files when a compaction starts, and, for the results about whole ranges, every file has an entry and every file outside the range has a later timestamp; clusters of colliding hashes and snapshots are not modelled.
- Compaction.WriteFiles: when a file is full is a parameter.
- HSTable.RecoverCut: entries are self-contained with nonempty keys, and the file is cut inside its entries, below 2^32 bytes, since the code's offset has 32 bits; sizes in a header do not add up to 2^64; the file header is taken as valid and regular.
- Recovery.RecoverThenLookUp: the hash of the key is not 0, since deletes go to that bucket, the bucket was empty before, and the recorded size is below 2^31 bytes after the file header.
- HSTable.LoadFile: a footer whose recorded position lies outside the file is not modelled, because the code then reads outside of it.
- Reopening.LoadFiles: ids and timestamps are in the same order, as the manager gives them; the first file that does not load ends it, where the code goes on to recover that file; the content of file headers is not modelled.
- Reopening.WriteAndReopen: the maximum size of a file is below 2^32, files are below 2^64 bytes, and there are fewer than 2^64 writes.
- HSTableManager.Manager.WriteOrders: self-contained orders only; the capacity of the buffer, failing writes and more than 2^32 files are not modelled.
- Large entries, which get files of their own.
- Snapshots, iterators, the rate limiter, the thread pool, MurmurHash3 and the 8-bit CRC of headers, which is a parameter.
