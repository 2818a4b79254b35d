# Riegeli record files: a verified model

Riegeli is a seekable file format for sequences of records. A file is cut into blocks of
65536 bytes, each starting with a 24-byte block header with two pointers; chunks of records,
each with a 40-byte chunk header, run across the blocks with the block headers interleaved.
This project models the Rust implementation of the format in Dafny and proves what the format
is for: what is written is read back, damage costs no more than it must, every way of moving
in a file agrees with the slow one, and reading arbitrary bytes is safe.

`dafny verify dfyconfig.toml` checks the whole project. The files follow the source:

| file | contents |
|---|---|
| `Bytes.dfy`, `Varint.dfy`, `LooseVarint.dfy` | bytes, little-endian integers, varints, their canonical form and all others |
| `BlockArithmetic.dfy`, `Padding.dfy` | positions, block headers in the way, chunk ends, padding |
| `Headers.dfy` | block headers and chunk headers |
| `SimpleChunk.dfy`, `SimpleChunkProofs.dfy` | the simple chunk codec |
| `Layout.dfy`, `Files.dfy` | the bytes of a chunk at a position, the bytes of a file |
| `Cutting.dfy`, `ChunkSink.dfy`, `RecordWriter.dfy` | where records are cut into chunks, and the writer |
| `ChunkParsing.dfy`, `ReaderSpec.dfy` | what the reader must do, as functions of the bytes |
| `RecordReader.dfy`, `Search.dfy` | the reader itself, method by method, proved equal to those functions |
| `StoredChunks.dfy`, `Reading.dfy`, `WriterReader.dfy` | reading what was written, whole, growing or cut short |
| `Recovery.dfy`, `Verdicts.dfy` | arbitrary bytes, and what the callback's answers do |
| `Damage.dfy`, `ScatteredDamage.dfy`, `CutShort.dfy`, `ForeignChunks.dfy` | one damaged chunk; any number of damaged places; a file cut at any byte; chunks that have to be refused |
| `Navigation.dfy`, `Cursor.dfy`, `DamagedSeeks.dfy` | seeking and stepping back, on written files in any mixture, and over damage |
| `ProtoFields.dfy`, `LooseFields.dfy`, `ProtoTrees.dfy`, `Wire.dfy` | protobuf messages, canonical and not, and their validators |
| `FormatExamples.dfy` | byte strings the formats prescribe |
| `FieldIter.dfy`, `MessageWriter.dfy`, `Stream.dfy` | field iterators, the message writer, columns and filters |

Conventions. A position counts usable bytes by its *rank*; the loops of the arithmetic are
proved against closed forms over ranks. The hash is an arbitrary function of the bytes, and
damage means that a stored hash no longer matches. A compressor is any pair of functions with
`decompress(compress(x)) == x` whose output stays below 2^62 bytes. The recovery callback is an
arbitrary function from the number of the report and the region to a verdict. A reader works
on a byte sequence that may grow between calls and keeps the length it last measured; the
growing-file results let each call see its own prefix of one file. A
sink has a capacity, and a write beyond it stores what fits and fails. File sizes stay below
2^64 where a pointer has to be stored. The wire format is that of the Protocol Buffers
Encoding specification, sections "Base 128 Varints", "Message Structure", "Length-Delimited
Records" and "Groups".

Where code and comment differ, the model follows the code: `next_block_boundary` is described
as giving a boundary strictly after its argument but returns the argument at a boundary, and
its caller makes up for that (`riegeli/src/record_reader.rs:1270-1275`).

## Model

| member | source | states |
|---|---|---|
| BlockArithmetic.AddWithOverhead | riegeli/src/block_arithmetic.rs:109-143 | The loop over blocks ends at the position whose usable-byte rank is the start's rank plus the length, for every start and length. |
| BlockArithmetic.DistanceWithoutOverhead | riegeli/src/block_arithmetic.rs:149-178 | The loop returns the number of usable bytes between the two positions, 0 when the second is not after the first. |
| BlockArithmetic.ComputeChunkEnd | riegeli/src/block_arithmetic.rs:76-91 | Through the loop, from both address forms of the beginning: the least possible chunk boundary that has the header and the data behind it and leaves a byte per record. |
| BlockArithmetic.AdvanceAdditive | riegeli/src/block_arithmetic.rs:109-143 | Advancing by `a` and then by `b` is advancing by `a + b`, from every start. |
| BlockArithmetic.AdvanceStrictlyMonotone | riegeli/src/block_arithmetic.rs:109-143 | A longer length ends strictly later. |
| BlockArithmetic.DistanceUndoesAdvance | riegeli/src/block_arithmetic.rs:149-178 | The distance to where a length leads is that length, from every start. |
| BlockArithmetic.AdvanceUndoesDistance | riegeli/src/block_arithmetic.rs:149-178 | Advancing by the distance leads back to the position if and only if the position is the start itself or a possible chunk boundary. |
| BlockArithmetic.ClosedFormIsExact | riegeli/src/block_arithmetic.rs:294-298 | The closed form equals the loop if and only if the start is a possible chunk boundary, whatever the length; so it fails at offset 24 of a block. |
| BlockArithmetic.RoundUpIsLeast | riegeli/src/block_arithmetic.rs:49-51 | Rounding up gives the least possible chunk boundary at or after the position. |
| BlockArithmetic.ChunkEndFacts | riegeli/src/block_arithmetic.rs:76-91 | A chunk ends at a possible chunk boundary, after its header and data, with at least one file byte per record. |
| BlockArithmetic.ChunkEndIsLeast | riegeli/src/block_arithmetic.rs:76-91 | And no later than it must: no smaller possible chunk boundary has the header and the data behind it and leaves a byte per record. |
| BlockArithmetic.AliasesOfBoundaries | riegeli/src/block_arithmetic.rs:53-63 | A position has another canonical name exactly if it lies right behind a block header, and that name is the block boundary. |
| BlockHeaders.WrittenHeaderReadsBack | riegeli/src/block_header.rs:28-62 | A block header built from two pointers is valid, and its 24 bytes read back as the same header. |
| BlockHeaders.ReadHeaderWritesBack | riegeli/src/block_header.rs:44-62 | Any 24 bytes are the bytes of the header read from them. |
| BlockHeaders.FieldOffsets | riegeli/src/block_header.rs:44-62 | The hash stands in bytes 0 to 8, the distance to the chunk before in 8 to 16, that to the next one in 16 to 24, least significant byte first. |
| ChunkHeaders.PackIsFaithful | riegeli/src/chunk_header.rs:70-95 | Packing never loses the type byte, and gives the record count back if and only if that is below 2^56. |
| ChunkHeaders.WrittenHeaderReadsBack | riegeli/src/chunk_header.rs:70-124 | A chunk header built from its parts is hash-valid for itself and for its data, and its 40 bytes read back as the same header. |
| ChunkHeaders.ReadHeaderWritesBack | riegeli/src/chunk_header.rs:100-124 | Any 40 bytes are the bytes of the header read from them. |
| ChunkHeaders.FieldOffsets | riegeli/src/chunk_header.rs:70-124 | The header hash covers bytes 8 to 40; data size, data hash, type byte, 56-bit record count and decoded size stand at fixed offsets, least significant byte first. |
| Varint.EncodeU64 | riegeli/src/varint.rs:33-46 | The loop emits the base-128 encoding of the value. |
| Varint.LengthIsEncodedLength | riegeli/src/varint.rs:104-112 | The length computed from the significant bits is the length of the encoding. |
| Varint.DecodeVarint | riegeli/src/varint.rs:56-99 | The 64-bit and the 32-bit decoding loops agree with the recursive reading, including which of the two errors is reported. |
| Varint.DecodeEncoded | riegeli/src/varint.rs:56-75 | Decoding an encoded value, wherever it stands in the data, gives the value and the length of its encoding. |
| Varint.DecodeInRange | riegeli/src/varint.rs:56-99 | A decoded value fits the width and takes no more than the width's longest encoding. |
| Varint.ReadCanonicalVarint | riegeli/src/proto/wire.rs:92-198 | The two canonical reading loops agree with the recursive reading. |
| Varint.SkipCanonicalVarint64 | riegeli/src/proto/wire.rs:128-155 | Skipping succeeds exactly where canonical reading does and consumes as much. |
| Varint.CanonicalIsEncoderImage | riegeli/src/proto/wire.rs:92-198 | The canonical readers accept a byte string as a value if and only if it is the encoder's output for that value and the value fits the width. |
| Varint.CanonicalIsDecodable | riegeli/src/proto/wire.rs:92-198 | What a canonical reader accepts, the permissive decoder reads as the same value and length. |
| LooseVarint.EncodingIsPadded | riegeli/src/varint.rs:33-75 | Described by its bytes alone, a number has exactly one encoding of each length from the encoder's on, and the encoder's is the shortest. |
| LooseVarint.DecodesExactlyEncodings | riegeli/src/varint.rs:56-99 | The permissive decoders read a number from some bytes if and only if these are an encoding of it, of any length up to the width's longest, and it fits the width. |
| SimpleChunk.SimpleChunkEncoder.EncodeChunk | riegeli/src/simple_chunk.rs:84-215 | The encoder returns the encoding of the records added, their number and their total size, plain or compressed; it fails only if the compressor does. |
| SimpleChunk.ParseSizeSection | riegeli/src/simple_chunk.rs:336-456 | The loop returns the sizes of the recursive reading of the sizes section, which fails on a missing or malformed varint, a total beyond the claim at any point, trailing bytes, or a total other than the claimed one. |
| SimpleChunk.NewDecoder | riegeli/src/simple_chunk.rs:239-320 | A decoder is made exactly when the data decode, and it then holds the decoded records from the first. |
| SimpleChunk.SimpleChunkDecoder.ReadRecord | riegeli/src/simple_chunk.rs:323-330 | Returns the next record, the bytes of its range, and moves on; nothing after the last. |
| SimpleChunkProofs.EncodedDataDecodes | riegeli/src/simple_chunk.rs:84-215 | Decoding what the encoder made returns the records, on the plain path and for every lawful compressor, so the reader's bounds never reject encoder output. |
| SimpleChunkProofs.DecodedDataIsExact | riegeli/src/simple_chunk.rs:336-631 | Any successful decoding gives exactly the claimed number of records of exactly the claimed total size; together they are the whole values section, which ends where the data end. |
| FormatExamples.HelloChunk | riegeli/src/simple_chunk.rs:818-826 | The bytes of an uncompressed chunk with the one record "hello". |
| Layout.CoveringIsUnique | riegeli/src/block_arithmetic.rs:76-91 | No two chunks of a file cover the same position. |
| Layout.FindCovering | riegeli/src/block_arithmetic.rs:76-91 | Every position of a file is covered by some chunk. |
| Files.BoundariesPointToTheirChunk | riegeli/src/record_writer.rs:593-695 | Every block boundary of a file holds a valid block header whose pointers give the beginning and the end of the one chunk that covers the boundary, and the file ends at a possible chunk boundary. |
| ChunkSinks.ChunkSink.WriteBytesWithBlockHeaders | riegeli/src/record_writer.rs:664-695 | After it the sink holds exactly the part of the chunk's image up to the last byte written, block headers included, or on a failed write a prefix of the image. |
| ChunkSinks.ChunkSink.WriteChunkRaw | riegeli/src/record_writer.rs:593-654 | On success the sink grows by exactly the chunk's image and the position is the chunk's end; on failure it has grown by a prefix of that image. |
| PaddingArithmetic.PosAfterPadding | riegeli/src/record_writer.rs:714-742 | The loop ends, at the position itself if it is aligned and otherwise at the least larger multiple of the padding that is a possible chunk boundary with room for a chunk header before it. |
| PaddingArithmetic.PaddingChunkEndsThere | riegeli/src/record_writer.rs:549-564 | A padding chunk of the computed size, written from a possible chunk boundary, ends exactly at the chosen position. |
| RecordWriters.RecordChunkIsWellFormed | riegeli/src/record_writer.rs:341-347 | Records within the threshold fit the 56-bit record count and every other header field, and their chunk decodes to them. |
| Cutting.ClosesNothingIffFits | riegeli/src/record_writer.rs:448-463 | One more record closes no chunk if and only if it and an empty record after it still fit with those that wait. |
| Cutting.CutIsGreedy | riegeli/src/record_writer.rs:448-463 | However many records come, each chunk cut is maximal: the record behind it, or an empty one if there is none, would not have fitted; an empty one still fits with those that wait; nothing is lost or moved. |
| Cutting.GreedyIsUnique | riegeli/src/record_writer.rs:448-463 | There is only one way of cutting the same records like that. |
| RecordWriters.WriterCutsGreedily | riegeli/src/record_writer.rs:448-463 | In every state of a writer that has not failed, the chunks since the last flush are the one greedy cut of the records accepted since, and the records it holds are those the cut leaves waiting. |
| RecordWriters.RecordWriter.constructor | riegeli/src/record_writer.rs:268-428 | A new writer has written the signature chunk and, unless a write failed, the metadata chunk if there is metadata; it has capped the threshold and satisfies the writer's invariant. |
| RecordWriters.RecordWriter.FlushChunk | riegeli/src/record_writer.rs:567-587 | The pending records become one more chunk and nothing stays pending; the chunks and records before are untouched. |
| RecordWriters.RecordWriter.WritePaddingToMultiple | riegeli/src/record_writer.rs:549-564 | Adds nothing to an aligned file, and otherwise one padding chunk that ends at the first multiple where one can. |
| RecordWriters.RecordWriter.WriteRecordImpl | riegeli/src/record_writer.rs:448-463 | Exactly the chunks the cut closes are written, each the encoding of its group: none if the record and an empty one still fit, and then the write succeeds; every chunk is within the threshold or holds one record. |
| RecordWriters.RecordWriter.WriteRecord | riegeli/src/record_writer.rs:439-446 | A closed or failed writer changes nothing; success appends exactly this record to those accepted and flushes exactly what the cut closes; a record that fits with an empty one behind it is accepted and flushes nothing; a failure is remembered for good. |
| RecordWriters.RecordWriter.Flush | riegeli/src/record_writer.rs:469-486 | After a successful flush the sink is exactly the laid-out chunks: those before, the waiting records as one more if there are any, and padding where the size is not aligned; they hold every record accepted. |
| RecordWriters.RecordWriter.Close | riegeli/src/record_writer.rs:491-541 | As flushing, and the writer is closed whether or not it succeeds. |
| ChunkParsing.ParseExtent | riegeli/src/record_reader.rs:1394-1525 | Whatever the bytes, the extent found begins at the canonical address and ends at a possible chunk boundary past the position asked for; its records are no more than its bytes in the file; and the end of file is met exactly at or past the last byte. |
| ChunkParsing.ParsesExactlyFramed | riegeli/src/record_reader.rs:1394-1525 | On any bytes an extent is trusted if and only if the header is there and valid, the data and the positions claimed are there, and every block header inside agrees with both ends; hash, type and counts then decide. |
| StoredChunks.StoredHeaderReads | riegeli/src/record_reader.rs:1537-1681 | The header of a stored chunk is read back, across an interleaved block header, exactly when the stream holds it and is long enough for the data size and record count it claims; with less the result is an error, and a clean end of file only if not one byte of the chunk is there. |
| StoredChunks.StoredDataReads | riegeli/src/record_reader.rs:1693-1766 | The data of a stored chunk are read back, past every interleaved block header, exactly when all of them are visible. |
| StoredChunks.StoredChunkParses | riegeli/src/record_reader.rs:1394-1525 | A stored chunk parses to its own records and extent when enough of it is visible, to the end of the file when nothing is, and otherwise to a failure that leaves its extent untrusted. |
| RecordReaders.RecordReader.constructor | riegeli/src/record_reader.rs:174-227 | A new reader has measured the stream and stands before the first chunk. |
| RecordReaders.RecordReader.CheckPreamble | riegeli/src/record_reader.rs:229-290 | Opening succeeds exactly as specified: on an empty stream, on one whose first block header is valid and whose signature header has exactly the fixed bytes, and otherwise if the callback accepts the region from position 0; the state then is the specified one. |
| RecordReaders.RecordReader.ReadChunkHeaderAt | riegeli/src/record_reader.rs:1537-1681 | Header, clean end of file or failure as specified, for any bytes, any position and any length known so far; the stream is measured again exactly when a valid header claims more than that length. |
| RecordReaders.RecordReader.CollectHeaderBytes | riegeli/src/record_reader.rs:1537-1681 | The loop gathers exactly the 40 header bytes; it succeeds if and only if the stream holds them and the block header in the way, if any, is valid and points back to this chunk. |
| RecordReaders.RecordReader.ReadChunkData | riegeli/src/record_reader.rs:1693-1766 | The loop returns exactly the data bytes between the block headers, each of which must agree with the chunk's extent. |
| RecordReaders.RecordReader.LoadNextChunk | riegeli/src/record_reader.rs:1394-1525 | The loop passes over padding, metadata and unknown recordless chunks and stops at the next chunk with records, at the end of the file, or at a failure whose extent is trusted only once the data have been read; the length known after it is the specified one. |
| RecordReaders.RecordReader.ResolveBoundaryResync | riegeli/src/record_reader.rs:1321-1360 | The loop over boundaries ends, and lands where the specification of resynchronising says, for the length known at the time, up to date or not. |
| RecordReaders.RecordReader.ReportRegionAt | riegeli/src/record_reader.rs:1243-1304 | Without a callback nothing is reported; with one, exactly one region is added to those reported, the one specified for the length known at the time, and the verdict on it is returned. |
| RecordReaders.RecordReader.TryRecoverAt | riegeli/src/record_reader.rs:1362-1387 | Without a callback nothing changes; with one the reader stands at the region's end whatever the verdict, which is returned. |
| Verdicts.ReadRecordHeeds | riegeli/src/record_reader.rs:343-360 | With any callback on any bytes, a call accepts every region it reports except that it fails exactly if the callback refuses one, which is then its last. |
| Verdicts.DrainTakesExactly | riegeli/src/record_reader.rs:1362-1387 | Draining any bytes takes one call for each record, one for each refusal and one for the end of the file, which no earlier call meets. |
| Verdicts.OpeningHeeds | riegeli/src/record_reader.rs:229-290 | A damaged preamble is one region from position 0, opening succeeds exactly if the callback accepts it, and reading then starts behind it. |
| Verdicts.SeekAsks | riegeli/src/record_reader.rs:386-460 | A seek reports at most one region and fails exactly if that is refused or there is no callback. |
| Verdicts.SeekNumericAsks | riegeli/src/record_reader.rs:467-534 | So does a seek by number, over any number of regions: all are accepted unless it fails, and then only the last is refused. |
| Verdicts.SeekBackAsks | riegeli/src/record_reader.rs:1049-1083 | A step back that meets a refusal fails; otherwise it reports nothing refused. |
| Verdicts.ErrorStays | riegeli/src/record_reader.rs:343-360 | Without a callback nothing is reported, and after an error the next call gives the same error and changes nothing. |
| Verdicts.ReadRecordTells | riegeli/src/record_reader.rs:1026-1034 | The last record counts as valid exactly if the call returned one, or none was reported lost since it was; the positions are those of that record and of the one behind it. |
| RecordReaders.RecordReader.ReadRecord | riegeli/src/record_reader.rs:296-363 | Result and new state, the length known included, are those of the recursive specification, for any bytes, any callback and any growth of the stream since it was measured. |
| RecordReaders.RecordReader.LoadChunkAt | riegeli/src/record_reader.rs:1771-1871 | Loading for a seek finds what loading forward finds, and remembers the chunk it touched last. |
| RecordReaders.RecordReader.SeekTo | riegeli/src/record_reader.rs:386-460 | Result and new state of a seek are those of its specification, the record index clamped to the chunk, under the same conditions. |
| RecordReaders.RecordReader.ResolveScanOrigin | riegeli/src/record_reader.rs:544-593 | The scan origin is the chunk the block header below the target points to, if that can be trusted, and otherwise the first chunk. |
| RecordReaders.RecordReader.SeekToNumeric | riegeli/src/record_reader.rs:467-534 | Result and new state are those of the specified walk, under the same conditions. |
| RecordReaders.RecordReader.LocateChunkBefore | riegeli/src/record_reader.rs:599-620 | Finds the chunk whose extent holds the target, or says why not, and knows the specified length afterwards. |
| RecordReaders.RecordReader.StepBack | riegeli/src/record_reader.rs:1049-1083 | Result and new state are those of the specified step, over any number of recordless chunks, under the same conditions. |
| Reading.WrittenFileReadsBack | riegeli/src/record_reader.rs:296-363 | Draining a written file returns exactly its records in order and then a clean end of file, with or without a callback, and the callback is never called. |
| Reading.GrowingFileLosesNothing | riegeli/src/record_reader.rs:1394-1525 | A reader without a callback opens on an empty prefix and on every prefix of at least 64 bytes of a written file, and on no other; over any calls on any visible prefixes, the records returned are then a prefix of the file's records; once all is visible the rest follows. |
| Reading.WrittenFileIsAllRead | riegeli/src/record_reader.rs:296-363 | Reading a written file until a call returns no record gives exactly its records, then the end of the file, and no region. |
| Reading.ReadRecordOfFile | riegeli/src/record_reader.rs:296-363 | One call on a visible prefix returns the first unread record or nothing, never passes over a chunk with records, and on the whole file never fails. |
| WriterReader.FlushedRecordsReadBack | riegeli/src/record_writer.rs:469-493 | After a successful flush or close of any writer, reading the output returns exactly the records it accepted. |
| WriterReader.UnfinishedOutputReadsPrefix | riegeli/src/record_writer.rs:500-516 | Reading what a failed or unflushed writer left behind, from any prefix on which the reader opens, returns only the first records it accepted. |
| WriterReader.WriterKeepsBoundaries | riegeli/src/record_writer.rs:593-695 | In every state of a writer that has not failed, its position is a possible chunk boundary at the end of its output, and every block boundary below holds a valid header with the two ends of the one chunk that covers it. |
| Recovery.ReadRecordKeepsSound | riegeli/src/record_reader.rs:296-363 | Each call on any bytes keeps the regions ordered and before the cursor, and after an error reading resumes exactly at the last region's end. |
| Recovery.ResyncPassesOver | riegeli/src/record_reader.rs:1321-1360 | On any bytes an invalid block header is passed over, and so is one that points into a block header, together with everything it claims; the walk goes on at the next boundary behind. |
| Recovery.RegionIsNear | riegeli/src/record_reader.rs:1243-1304 | However little of the stream was known, a region whose extent is not trusted ends no later than the stream then did, or just behind the failure. |
| Recovery.LoadedIsKnownToFit | riegeli/src/record_reader.rs:1632-1650 | However short the stream was when last measured, a chunk with records is only accepted once it is known to be long enough for them. |
| Recovery.ReadingIsSafe | riegeli/src/record_reader.rs:1243-1387 | Any bytes, any callback, any number of calls: the regions are nonempty, disjoint and increasing, and no more records come out than the file has bytes. |
| Recovery.DrainEnds | riegeli/src/record_reader.rs:1243-1387 | Draining any bytes with any callback ends, within one call more than the records delivered and regions reported, and those do not depend on the callback. |
| Recovery.VerdictsDoNotMatter | riegeli/src/record_reader.rs:343-360 | Two readers of the same bytes, retried to the end, return the same records and report the same regions whatever their callbacks answer. |
| Recovery.ReadAllIsRun | riegeli/src/record_reader.rs:296-363 | Reading until a call returns no record is a run of calls, all but the last of them returning the records, whatever the bytes; it always ends. |
| Damage.DamagedDataLosesItsChunk | riegeli/src/record_reader.rs:1259-1280 | A chunk with damaged data loses exactly its own records, and the one region reported is its extent. |
| Damage.DamagedHeaderLosesItsBlock | riegeli/src/record_reader.rs:1259-1280 | A chunk with a damaged header loses exactly the chunks from it to the first one at or after the next block boundary strictly after its beginning, or to the end of the file, in one region. |
| Damage.ResyncFindsChunk | riegeli/src/record_reader.rs:1321-1360 | Following the block headers from a boundary leads to the first chunk that starts at or after it. |
| ScatteredDamage.ReadableParses | riegeli/src/record_reader.rs:1394-1525 | With a valid header and valid block headers in its way, a chunk of a damaged file parses if its data match their hash and otherwise fails with its own extent trusted. |
| ScatteredDamage.UnreadableParses | riegeli/src/record_reader.rs:1537-1766 | With an invalid header or an invalid block header in its way, a chunk fails and its extent is not trusted. |
| ScatteredDamage.ResyncFindsSurvivor | riegeli/src/record_reader.rs:1321-1360 | Following block headers over any number of invalid ones leads to the first chunk that starts at or after the next valid one. |
| ScatteredDamage.DamageLosesOnlyWhatItHits | riegeli/src/record_reader.rs:1243-1387 | However many chunk headers, chunk data and block headers of a written file are damaged behind its preamble, as long as each fails its own hash, reading to the end delivers exactly the surviving records and reports exactly the lost regions: damaged data lose their chunk, an unreadable chunk everything up to the first chunk at or after the next intact block boundary. |
| CutShort.CutFileLosesOneChunk | riegeli/src/record_reader.rs:1243-1387 | The first bytes of a written file, of any number that holds the preamble, read with any callback: exactly the records of the chunks before the first that is not wholly there come out, and exactly what is left of that one is reported, in one region unless the cut falls in a block header or just behind one. |
| CutShort.OneRegionAtBoundary | riegeli/src/record_reader.rs:1243-1304 | Cut where a chunk could end, the remainder is one region up to the end of the file, and nothing if the cut is between chunks. |
| CutShort.RemainderCovers | riegeli/src/record_reader.rs:1243-1304 | Wherever the cut falls the regions are one or two, start at the chunk, leave nothing out and end at the end of the file or one position behind. |
| CutShort.ResyncOfCut | riegeli/src/record_reader.rs:1321-1360 | In a file that is cut, the block header inside the last chunk leads past the end unless it is cut itself. |
| CutShort.StubOfFile | riegeli/src/record_reader.rs:229-290 | Of a file cut inside its preamble everything is one region, and nothing is left to read. |
| ForeignChunks.UnacceptableFails | riegeli/src/record_reader.rs:1456-1525 | A chunk with right hashes fails with its extent trusted if and only if it is of unknown type and claims records, or of a known type and not what that may be, or its data do not decode. |
| ForeignChunks.RefusedChunksAreLostAlone | riegeli/src/record_reader.rs:1456-1525 | Reading a file with any number of such chunks delivers the records of all the others and reports each of them by its own extent. |
| DamagedSeeks.SeekLeavesTheRest | riegeli/src/record_reader.rs:386-460 | On any bytes and whatever the callback answers, a seek leaves to be read and reported what draining from its address would have given, less the records it passes over. |
| DamagedSeeks.NumericSeekOverDamage | riegeli/src/record_reader.rs:467-593 | Over a file damaged anywhere behind its preamble a seek by number that is not refused passes over every header it cannot read, reports what is lost there, and leaves exactly what survives from the chunk where it stops. |
| DamagedSeeks.NoStepBackOverDamage | riegeli/src/record_reader.rs:599-620 | At the beginning of a chunk with an unreadable header before it, a step back fails and changes nothing. |
| DamagedSeeks.ListingOverDamage | riegeli/src/record_reader.rs:892-945 | The scan that searching begins with, unless refused, lists exactly the chunks with records whose headers it can reach. |
| DamagedSeeks.SearchableIffSurvives | riegeli/src/record_reader.rs:794-975 | Of the chunks so listed, exactly those that survive can be searched. |
| Navigation.SeekNumericIsTheWalk | riegeli/src/record_reader.rs:467-593 | On a written file that has been measured, seeking from a block-header pointer gives the same reader as walking over every chunk from offset 64, for every target. |
| Navigation.NumericPositionFindsRecord | riegeli/src/record_reader.rs:467-534 | The numeric position of any record leads from any state of a reader that has measured the file to that record. |
| Navigation.LastPositionLeadsBack | riegeli/src/record_reader.rs:379-381 | Seeking to the numeric form of the last position and reading returns the last record again. |
| Navigation.ReadThere | riegeli/src/record_reader.rs:296-363 | Where the next read leaves the reader, from any place in a written file. |
| Navigation.SteppingBackUndoesReading | riegeli/src/record_reader.rs:1049-1083 | After `n` reads exactly `n` steps back succeed, each followed by a read of the records in reverse; the next one reports that there is none and changes nothing. |
| Cursor.SeekLands | riegeli/src/record_reader.rs:386-460 | A seek to any chunk of a written file, with any index and either address, leads to the record meant: the index is cut off at the chunk's end, and does not carry over to another chunk. |
| Cursor.NumericSeekLands | riegeli/src/record_reader.rs:467-534 | For every target, a seek by number leads to the first record whose numeric position is not below it; at or past the end of the file that is the end of the file. |
| Cursor.CountsThoseBelow | riegeli/src/record_reader.rs:467-534 | The records counted as below a target are exactly those with a smaller numeric position. |
| Cursor.ReaderIsCursor | riegeli/src/record_reader.rs:296-593 | Any sequence of reads, steps back, seeks by position and seeks by number on a written file turns out as on a cursor over the list of its records, and none fails. |
| Cursor.PositionLeadsOn | riegeli/src/record_reader.rs:365-374 | Wherever such a sequence has led, seeking to the reader's position with any reader of the file, and reading, gives what it would return next. |
| Cursor.NumberLeadsOn | riegeli/src/record_reader.rs:365-374 | After a record has been read, so does the numeric form of the position. |
| Searching.CollectDataChunks | riegeli/src/record_reader.rs:892-945 | On any bytes, with any callback, the list, the failure and the new state are those of the recursive scan over the headers. |
| Searching.CollectOfFile | riegeli/src/record_reader.rs:892-945 | On an intact file the scan lists exactly the chunks with records, in order, and leaves the reader as it was. |
| Searching.ListIsBounded | riegeli/src/record_reader.rs:892-945 | On any bytes the scan lists no more chunks than the stream has positions, and none with more records than it has bytes. |
| Searching.CollectAsks | riegeli/src/record_reader.rs:892-945 | The scan fails exactly if the callback refuses a region, or there is one to report and no callback. |
| Searching.BinarySearchWithinChunk | riegeli/src/record_reader.rs:977-1024 | On any bytes: finds a match exactly when the chunk can be read and holds one, its records being in order and its first one below the target, within logarithmically many comparisons. |
| Searching.OnlyOneCandidate | riegeli/src/record_reader.rs:794-874 | When all readable chunks before a split open below the target and all others above it, and the last one before the split holds no match, no record that can be read matches. |
| Searching.Search | riegeli/src/record_reader.rs:794-887 | On any bytes with any callback: unless a region is refused, or met without a callback, a match is found exactly when a record that can be read, of a chunk the scan lists, is one, provided the comparator never steps down along these records; then the next read returns a match, and otherwise nothing follows. The comparator is called at most logarithmically often in the chunks listed plus logarithmically often in the records of one of them, and so in the length of the stream. |
| Searching.SearchSeesTheFile | riegeli/src/record_reader.rs:794-945 | On a written file these records are all its records, all can be read, and the scan reports nothing; so a match is found exactly when the file holds one. |
| Searching.EndOfFileIsBehindLast | riegeli/src/record_reader.rs:876-888 | On a written file a search that finds nothing leaves the reader behind the last record: the next read meets the end of the file. |
| Searching.ReadInChunkAt | riegeli/src/record_reader.rs:947-975 | Seeking to an index in a chunk and reading gives that record if the chunk can be read and has it, and otherwise never a record of that chunk, whatever the bytes and the answers. |
| ProtoFields.TagRoundTrip | riegeli/src/proto/wire.rs:47-63 | A tag always gives back its wire type, and its field number if and only if that is below 2^29. |
| FormatExamples.MixedMessage | riegeli/src/proto/wire.rs:684-690 | The bytes of a message with a varint, a bytes field and a 32-bit integer. |
| FormatExamples.NestedGroups | riegeli/src/proto/wire.rs:613-617 | The bytes of two nested groups. |
| ProtoFields.ReadFieldsInvertsSerialize | riegeli/src/proto/field_iter.rs:68-216 | Bytes split into these fields under the canonical rules if and only if the fields can be expressed and writing them gives the bytes. |
| ProtoFields.CanonicalIffReserializes | riegeli/src/proto/wire.rs:252-401 | The canonical rules read these fields if and only if the permissive rules read them and writing them gives the bytes back. |
| ProtoFields.CanonicalMessageIsPermissive | riegeli/src/proto/wire.rs:252-401 | A canonical message is exactly a permissive message that writing its fields reproduces. |
| LooseFields.PermissiveNumbers | riegeli/src/proto/wire.rs:338-401 | The permissive readers of varints, lengths and tags accept every encoding of a number in at most ten bytes, wherever it stands, if it fits, and nothing else. |
| LooseFields.PermissiveReadsExactlySpellings | riegeli/src/proto/wire.rs:338-401 | The permissive rules split a byte string into some fields if and only if it is these fields with each tag, varint and length in some encoding of at most ten bytes. |
| LooseFields.OverlongIsPermissiveOnly | riegeli/src/proto/wire.rs:338-401 | The fields of a message, written with any number longer than it need be, are still a message to permissive parsers, with the same fields, and not a canonical one. |
| ProtoTrees.TreesAreMessages | riegeli/src/proto/wire.rs:252-328 | The bytes of any tree of fields and groups are a message whose fields are the flattened tree. |
| ProtoTrees.MessagesAreTrees | riegeli/src/proto/wire.rs:252-328 | Every message is the bytes of such a tree. |
| ProtoTrees.TreeIsUnique | riegeli/src/proto/wire.rs:252-328 | Two trees with the same bytes are equal. |
| Wire.ValidateMessage | riegeli/src/proto/wire.rs:252-401 | The validating loop with its stack of groups accepts exactly the byte strings that split into fields with well-nested groups, under the canonical and under the permissive rules. |
| FieldIterators.ProtoFieldIter.Next | riegeli/src/proto/field_iter.rs:68-196 | Yields the items to come one by one: the fields, then at most one error, then nothing. |
| FieldIterators.MessageIffIteratesNested | riegeli/src/proto/field_iter.rs:65-216 | A byte string is a message if and only if iterating yields no error and the markers yielded are well nested; writing the fields yielded gives the bytes back. |
| FieldIterators.FilteredFieldIter.Next | riegeli/src/proto/field_iter.rs:283-336 | Yields exactly the items the filter keeps, in order, and ends after an error of its own. |
| FieldIterators.FilterTrees | riegeli/src/proto/field_iter.rs:223-336 | On a message the filter yields exactly the top-level fields and whole groups whose number is in the set. |
| FieldIterators.FilterFailsExactly | riegeli/src/proto/field_iter.rs:283-336 | On any bytes the filter fails if and only if the iteration does or an end marker closes no group; the set plays no part. |
| FieldIterators.CopyFields | riegeli/src/proto/field_iter.rs:355-366 | Appends exactly the kept fields before the first error and succeeds exactly if there is none. |
| FieldIterators.CopyKeepsChosenNodes | riegeli/src/proto/field_iter.rs:355-366 | Copying from a message gives the bytes of the kept nodes, again a message. |
| FieldIterators.CopyTwiceIsIntersection | riegeli/src/proto/field_iter.rs:355-366 | Copying with one set and then another is copying with their intersection, and never fails on a message. |
| MessageWriters.SerializedMessageWriter.WriteField | riegeli/src/proto/field_iter.rs:202-216 | Appends the field's bytes and nothing else; every saved offset stays right. |
| MessageWriters.SerializedMessageWriter.WriteUint64 | riegeli/src/proto/writer.rs:76-84 | Adds one varint field to the draft. |
| MessageWriters.SerializedMessageWriter.WriteInt64 | riegeli/src/proto/writer.rs:100-108 | Adds one varint field holding the two's complement. |
| MessageWriters.SerializedMessageWriter.WriteSint64 | riegeli/src/proto/writer.rs:136-144 | Adds one varint field holding the zigzag encoding. |
| MessageWriters.SerializedMessageWriter.WriteBytes | riegeli/src/proto/writer.rs:230-248 | Adds one length-delimited field, or refuses it over the limit and changes nothing. |
| MessageWriters.SerializedMessageWriter.OpenLengthDelimited | riegeli/src/proto/writer.rs:262-267 | Opens a submessage; the saved offset is where its contents begin. |
| MessageWriters.SerializedMessageWriter.CloseLengthDelimited | riegeli/src/proto/writer.rs:279-311 | Turns the innermost open submessage into a finished one by inserting its length, leaving the outer offsets right; fails without one open or over the limit, and then changes nothing. |
| MessageWriters.SerializedMessageWriter.Finish | riegeli/src/proto/writer.rs:60-71 | Succeeds if and only if no submessage is open, and then returns the recursive serialization of what was written. |
| MessageWriters.CloseKeeps | riegeli/src/proto/writer.rs:279-311 | Splicing a length in keeps every other saved offset at the beginning of its contents. |
| MessageWriters.OpsWriteMessage | riegeli/src/proto/writer.rs:262-311 | Writing a nested message piece by piece succeeds if and only if no submessage exceeds the limit, and then adds exactly that message to what is being written. |
| MessageWriters.FinishedMessageReadsBack | riegeli/src/proto/writer.rs:60-71 | A finished message reads back as the fields written, a submessage being the field that holds its serialization. |
| MessageWriters.ZigzagIsBijective | riegeli/src/proto/wire.rs:232-234 | Every 64-bit pattern is the encoding of exactly one signed value. |
| MessageWriters.UnsignedIsCongruent | riegeli/src/proto/writer.rs:100-108 | The pattern of a signed value is the one congruent to it modulo 2^64, and tells the value. |
| ProtoStream.ExtractVarintColumn | riegeli/src/proto/stream.rs:126-176 | Over any bytes and any callback: the column of all records read before the end of the file, what is not a message contributing nothing, or the number of the record whose reading failed; the reader is left where reading stops. |
| ProtoStream.ColumnOfTrees | riegeli/src/proto/stream.rs:144-170 | A record's column is the values of its top-level varint fields with that number; nothing inside a group counts. |
| ProtoStream.FilterFieldsToWriter | riegeli/src/proto/stream.rs:200-262 | Over any bytes and any callback: writes the filtered records in order, all of them at the end of the file; stops at the first record that cannot be read, is a non-canonical message, or cannot be written, with its number and with exactly the filtered records before it written, perhaps followed by that one if its writing failed. |
| ProtoStream.NothingElseIsKept | riegeli/src/proto/stream.rs:215-259 | A record that passes the filter is a message with only allowed top-level numbers, or is no message to any parser and unchanged. |
| ProtoStream.RefusedExactly | riegeli/src/proto/stream.rs:242-252 | A record is refused if and only if permissive parsers read it but writing what they read gives other bytes. |
| ProtoStream.OverlongIsRefused | riegeli/src/proto/stream.rs:238-252 | Whatever the fields, the filter refuses the record if and only if some number in it is longer than it need be. |
| ProtoStream.ColumnSurvivesFiltering | riegeli/src/proto/stream.rs:126-262 | The column of a kept field is the same before and after filtering, and that of any other field is empty after. |
| ProtoStream.FilterTwice | riegeli/src/proto/stream.rs:200-262 | Filtering records by one set and then another never refuses and equals filtering by the intersection. |

## Left out

- Transposed chunks: their codec (`riegeli/src/transpose/encoder.rs`, `riegeli/src/transpose/decoder.rs`) is not modelled, so its round trip is not stated; the reader treats the decoder as an arbitrary function from header and data to records, and the writer writes simple chunks only.
- The file metadata payload is arbitrary bytes of any claimed size: the transposing encoder that makes it is not modelled, and reading metadata is not either.
- Compression libraries, compression levels and window sizes, bucket sizes of the transposing encoder, and the validation of those options.
- The inside of the hash function.
- Failing reads and seeks of the underlying stream; a stream always delivers the bytes it has. A failing write is modelled by the capacity of the sink.
- Saturation of 64-bit positions: positions are unbounded, and results about written files require sizes below 2^64.
- `size`, `check_file_format`, the metadata readers and field projection.
- The accessors, beyond the state they return.
- Error values: failures carry where they happened and whether the extent is trusted, not their texts or kinds.
- RecordWriters.RecordWriter.constructor: a failed write of the preamble gives a writer that has already failed, where the source gives no writer at all; the signature goes through the general chunk path, which emits the same bytes.
- The writer's part that lays out bytes is a class of its own, the sink, and the branch shared by the two ways of loading a chunk is one method; the source has them inside the writer and twice in the reader.
- Header structures are three or five numbers with conversions to and from bytes instead of byte arrays with accessors.
- The decoder a reader holds is a list of records and an index, which is what `SimpleChunk.SimpleChunkDecoder` is proved to be.
- Searching is written as methods that take the reader; the comparator is a pure function.
- Dropping an unclosed writer, which closes it and discards the error.
- What fails when a record cannot be read, refused or written: the number of the record and the kind of failure are told, not the underlying error.
- The typed writes of the message writer other than those listed add one field of the same shapes (32-bit, boolean, signed fixed and floating values).
- Field handlers, and dispatching records to them.
