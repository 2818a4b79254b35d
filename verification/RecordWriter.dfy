/** The record writer: records are gathered into chunks and the chunks are laid out in the sink. */
module RecordWriters {
  import opened Bytes
  import opened BlockArithmetic
  import opened ChunkParsing
  import opened Layout
  import opened StoredChunks
  import opened Files
  import opened ChunkSinks
  import opened PaddingArithmetic
  import opened Cutting
  import CH = ChunkHeaders
  import SC = SimpleChunk
  import SimpleChunkProofs
  import V = Varint

  /** The largest record count a chunk header can hold. */
  const MAX_NUM_RECORDS: nat := 0xFF_FFFF_FFFF_FFFF

  /** Chunks that make a file, those with records within the threshold. */
  ghost predicate AllowedChunks(env: Env, cs: seq<ChunkDesc>, chunkSize: nat) {
    && WellFormedFile(env, cs)
    && forall c | c in cs && c.typeByte == CH.ChunkType.Simple.Code() :: WithinThreshold(c.records, chunkSize)
  }

  lemma OneMoreChunk(env: Env, cs: seq<ChunkDesc>, c: ChunkDesc, chunkSize: nat)
    requires AllowedChunks(env, cs, chunkSize) && WellFormed(env, c)
    requires c.typeByte == CH.ChunkType.Simple.Code() ==> WithinThreshold(c.records, chunkSize)
    ensures AllowedChunks(env, cs + [c], chunkSize)
  {
    hide WellFormed, WithinThreshold;
  }

  function RecordChunk(data: Bytes, records: seq<Bytes>): ChunkDesc {
    ChunkDesc(CH.ChunkType.Simple.Code(), data, records, SC.TotalSize(records))
  }

  /** The chunk is the encoding of these records. */
  ghost predicate IsBatch(codec: SC.Codec, compression: Byte, c: ChunkDesc, records: seq<Bytes>) {
    SC.EncodeData(codec, compression, records) == Some(c.data) && c == RecordChunk(c.data, records)
  }

  /** The chunks are the encodings of these groups of records, one each. */
  ghost predicate AreBatches(codec: SC.Codec, compression: Byte, cs: seq<ChunkDesc>, groups: seq<seq<Bytes>>) {
    |cs| == |groups| && forall i | 0 <= i < |cs| :: IsBatch(codec, compression, cs[i], groups[i])
  }

  lemma NoBatches(codec: SC.Codec, compression: Byte, cs: seq<ChunkDesc>)
    ensures AreBatches(codec, compression, cs[|cs|..], [])
  {
  }

  lemma OneBatch(codec: SC.Codec, compression: Byte, cs: seq<ChunkDesc>, c: ChunkDesc, records: seq<Bytes>)
    requires IsBatch(codec, compression, c, records)
    ensures AreBatches(codec, compression, (cs + [c])[|cs|..], [records])
  {
    hide IsBatch;
    assert (cs + [c])[|cs|..] == [c];
  }

  /** Further chunks behind those from number `k` on, for further groups. */
  lemma MoreBatches(codec: SC.Codec, compression: Byte, before: seq<ChunkDesc>, after: seq<ChunkDesc>, k: nat,
                    groups: seq<seq<Bytes>>, more: seq<seq<Bytes>>)
    requires k <= |before| && before <= after
    requires AreBatches(codec, compression, before[k..], groups)
    requires AreBatches(codec, compression, after[|before|..], more)
    ensures AreBatches(codec, compression, after[k..], groups + more)
  {
    hide IsBatch;
    var cs, all := after[k..], groups + more;
    forall i | 0 <= i < |cs|
      ensures IsBatch(codec, compression, cs[i], all[i])
    {
      if i < |groups| {
        assert cs[i] == before[k..][i];
      } else {
        assert cs[i] == after[|before|..][i - |groups|];
      }
    }
  }

  /** The chunks written before a record joins those that wait, and after it has. */
  lemma AcceptedBatches(codec: SC.Codec, compression: Byte, before: seq<ChunkDesc>, between: seq<ChunkDesc>,
                        after: seq<ChunkDesc>, pending: seq<Bytes>, data: Bytes, chunkSize: nat)
    requires before <= between <= after
    requires var full := pending != [] && Accounted(pending) + |data| + 8 > chunkSize;
      var now := (if full then [] else pending) + [data];
      && AreBatches(codec, compression, between[|before|..], if full then [pending] else [])
      && AreBatches(codec, compression, after[|between|..], if Accounted(now) + 8 > chunkSize then [now] else [])
    ensures AreBatches(codec, compression, after[|before|..], Accept(pending, data, chunkSize).groups)
  {
    hide AreBatches;
    var full := pending != [] && Accounted(pending) + |data| + 8 > chunkSize;
    var now := (if full then [] else pending) + [data];
    var first, second := if full then [pending] else [], if Accounted(now) + 8 > chunkSize then [now] else [];
    MoreBatches(codec, compression, between, after, |before|, first, second);
    assert Accept(pending, data, chunkSize).groups == first + second;
  }

  /** What a flush adds: the records that wait, if any, as one chunk, and padding where the size is not aligned yet. */
  ghost predicate FlushAdds(codec: SC.Codec, compression: Byte, padding: nat, before: seq<ChunkDesc>,
                            pending: seq<Bytes>, after: seq<ChunkDesc>)
  {
    var k := |before| + if pending == [] then 0 else 1;
    && before <= after && k <= |after|
    && (pending != [] ==> IsBatch(codec, compression, after[|before|], pending))
    && PaddingAdds(padding, after[..k], after)
  }

  /** Nothing to an aligned file, else one chunk that ends at the first multiple where it can. */
  ghost predicate PaddingAdds(padding: nat, before: seq<ChunkDesc>, after: seq<ChunkDesc>) {
    var pos := Start(before, |before|);
    if padding <= 1 || pos % padding == 0 then after == before
    else
      && |after| == |before| + 1 && before <= after && after[|before|].typeByte == CH.ChunkType.Padding.Code()
      && Start(after, |after|) % padding == 0
      && forall q | pos < q < Start(after, |after|) && q % padding == 0 :: !CanEndPaddingAt(pos, q)
  }

  lemma FlushInTwoSteps(codec: SC.Codec, compression: Byte, padding: nat, before: seq<ChunkDesc>, pending: seq<Bytes>,
                        between: seq<ChunkDesc>, after: seq<ChunkDesc>)
    requires before <= between
    requires AreBatches(codec, compression, between[|before|..], if pending == [] then [] else [pending])
    requires PaddingAdds(padding, between, after)
    ensures FlushAdds(codec, compression, padding, before, pending, after)
  {
    hide IsBatch, Start;
    assert between <= after;
    if pending != [] {
      assert between[|before|..][0] == after[|before|];
    }
    assert after[..|between|] == between;
  }

  predicate Aligned(pos: nat, alignment: nat) { alignment > 0 ==> pos % alignment == 0 }

  lemma PaddingFacts(pos: nat, padding: nat, endPos: nat)
    requires PadsTo(pos, padding, endPos)
    ensures Aligned(endPos, padding)
    ensures endPos != pos ==> pos < endPos && CanEndPaddingAt(pos, endPos) && Distance(pos, endPos) >= CHUNK_HEADER_SIZE
  {
    hide Distance;
  }

  lemma PaddedTo(padding: nat, before: seq<ChunkDesc>, after: seq<ChunkDesc>)
    requires before <= after && PadsTo(Start(before, |before|), padding, Start(after, |after|))
    requires after == before
      || (|after| == |before| + 1 && after[|before|].typeByte == CH.ChunkType.Padding.Code()
          && Start(before, |before|) < Start(after, |after|))
    ensures PaddingAdds(padding, before, after)
  {
    hide Start, CanEndPaddingAt;
  }

  lemma NoPadding(cs: seq<ChunkDesc>)
    ensures PaddingAdds(0, cs, cs)
  {
  }

  /** Records that wait, and the group one more record has joined, may become a chunk. */
  lemma MayBecomeChunk(pending: seq<Bytes>, data: Bytes, chunkSize: nat)
    requires CanWait(pending, chunkSize) && |data| <= MAX_RECORD
    ensures pending != [] ==> WithinThreshold(pending, chunkSize)
    ensures WithinThreshold([] + [data], chunkSize)
    ensures pending == [] || Accounted(pending) + |data| + 8 <= chunkSize ==>
      WithinThreshold(pending + [data], chunkSize)
    ensures Accounted(pending) > 0 <==> pending != []
  {
    AccountedSnoc(pending, data);
    EmptyAccounted();
  }

  lemma {:induction false} CountBound(records: seq<Bytes>)
    ensures 8 * |records| <= Accounted(records)
    ensures |records| == 1 ==> SC.TotalSize(records) == |records[0]|
  {
    if |records| == 1 {
      assert records[1..] == [];
    }
  }

  /** Records the threshold allows fit the fields of a chunk header and survive encoding and decoding. */
  lemma RecordChunkIsWellFormed(env: Env, compression: Byte, records: seq<Bytes>, chunkSize: nat)
    requires env.codec.Lawful() && (compression == SC.UNCOMPRESSED || SC.IsCompressed(compression))
    requires chunkSize <= 8 * MAX_NUM_RECORDS && WithinThreshold(records, chunkSize)
    requires SC.EncodeData(env.codec, compression, records).Some?
    ensures |records| <= MAX_NUM_RECORDS
    ensures WellFormed(env, RecordChunk(SC.EncodeData(env.codec, compression, records).value, records))
  {
    CountBound(records);
    var data := SC.EncodeData(env.codec, compression, records).value;
    EncodedDataIsShort(env.codec, compression, records);
    SimpleChunkProofs.EncodedDataDecodes(env.codec, compression, records);
  }

  lemma EncodedDataIsShort(codec: SC.Codec, compression: Byte, records: seq<Bytes>)
    requires codec.Lawful()
    requires SC.TotalSize(records) <= 8 * MAX_NUM_RECORDS + MAX_RECORD && |records| <= MAX_NUM_RECORDS
    requires SC.EncodeData(codec, compression, records).Some?
    ensures |SC.EncodeData(codec, compression, records).value| < TWO_64
  {
    SC.SizesLength(records);
    SC.ConcatLength(records);
    ShortVarint(|SC.Sizes(records)|);
    ShortVarint(|SC.Concat(records)|);
    if compression != SC.UNCOMPRESSED {
      var zs := codec.compress(compression, SC.Sizes(records)).value;
      var zv := codec.compress(compression, SC.Concat(records)).value;
      assert |zs| < 0x4000_0000_0000_0000 && |zv| < 0x4000_0000_0000_0000;
      V.LengthIsEncodedLength(|SC.Sizes(records)|);
      ShortVarint(V.LengthVarintU64(|SC.Sizes(records)|) + |zs|);
    }
  }

  lemma ShortVarint(v: nat)
    requires v < TWO_64
    ensures |V.Encode(v)| <= 10
  {
    V.CapacityIsWidth();
    V.EncodedLengthBound(v, V.W64, 0);
  }

  class RecordWriter {
    const env: Env
    const compression: Byte
    const chunkSize: nat
    const finalPadding: nat
    const sink: ChunkSink
    var encoder: SC.SimpleChunkEncoder
    var accumulatedBytes: nat
    var pendingRecordCount: nat
    var closed: bool
    var failed: bool

    /** Every chunk handed to the sink, the last of them perhaps not completely written. */
    ghost var chunks: seq<ChunkDesc>
    /** Every record accepted so far. */
    ghost var written: seq<Bytes>
    /** The records accepted since the last flush, and how many chunks there were then. */
    ghost var recent: seq<Bytes>
    ghost var flushedChunks: nat
    /** Whether the sink holds all of the chunks and no record was lost to a failed encoding. */
    ghost var whole: bool

    /** The parts that never change. */
    ghost predicate Configured()
      reads this`encoder
    {
      && env.codec.Lawful() && (compression == SC.UNCOMPRESSED || SC.IsCompressed(compression))
      && chunkSize <= 8 * MAX_NUM_RECORDS
      && sink.h == env.h
      && encoder.codec == env.codec && encoder.compression == compression
    }

    /** What every chunk handed to the sink is. */
    ghost predicate ChunksValid()
      reads this`chunks
    {
      AllowedChunks(env, chunks, chunkSize)
    }

    /** The sink holds the chunks, or a prefix of them once a chunk could not be written. */
    ghost predicate SinkValid()
      reads this`chunks, this`whole, sink
    {
      && |sink.out| <= sink.capacity
      && (if whole then sink.out == FileImage(env.h, chunks) && sink.filePos == Start(chunks, |chunks|)
          else sink.out <= FileImage(env.h, chunks))
    }

    /** Records in the chunks followed by the pending ones are the records accepted. */
    ghost predicate RecordsValid()
      reads this`encoder, this`accumulatedBytes, this`pendingRecordCount, this`chunks, this`written, this`whole, encoder
    {
      && accumulatedBytes == Accounted(encoder.records) && pendingRecordCount == |encoder.records|
      && (if whole then RecordsFrom(chunks, 0) + encoder.records == written
          else RecordsFrom(chunks, 0) <= written)
    }

    /** The chunks since the last flush, and the records that wait, are the cut of the records accepted since then. */
    ghost predicate CutValid()
      reads this`encoder, this`chunks, this`recent, this`flushedChunks, encoder
    {
      var c := CutAll(recent, chunkSize);
      && flushedChunks <= |chunks| && encoder.records == c.pending && CanWait(c.pending, chunkSize)
      && AreBatches(env.codec, compression, chunks[flushedChunks..], c.groups)
    }

    /**
     What one more record means: nothing is flushed if it and an empty one still fit; otherwise,
     unless that fails, exactly the groups it closes.
     */
    ghost predicate Accepts(before: seq<ChunkDesc>, pending: seq<Bytes>, data: Bytes, ok: bool)
      reads this`encoder, this`chunks, encoder
    {
      var c := Accept(pending, data, chunkSize);
      && before <= chunks && (c.groups == [] ==> ok && chunks == before)
      && (ok ==> encoder.records == c.pending && AreBatches(env.codec, compression, chunks[|before|..], c.groups))
    }

    ghost predicate Valid()
      reads this, encoder, sink
    {
      && Configured() && ChunksValid() && SinkValid() && RecordsValid()
      && (!failed ==> whole && CutValid())
    }

    /** Everything but where the pending records stand with respect to the threshold. */
    ghost predicate Consistent()
      reads this, encoder, sink
    {
      Configured() && ChunksValid() && SinkValid() && RecordsValid()
    }

    constructor (env: Env, compression: Byte, chunkSizeOption: nat, finalPadding: nat,
                 metadata: Option<(Bytes, U64)>, capacity: nat)
      requires env.codec.Lawful() && (compression == SC.UNCOMPRESSED || SC.IsCompressed(compression))
      ensures Valid() && fresh(encoder) && fresh(sink)
      ensures this.env == env && !closed && written == [] && recent == []
      ensures this.chunkSize == Min(chunkSizeOption, 8 * MAX_NUM_RECORDS) && this.finalPadding == finalPadding
      ensures sink.capacity == capacity
      ensures chunks == [SIGNATURE] || (metadata.Some? && chunks ==
        [SIGNATURE, ChunkDesc(CH.ChunkType.FileMetadata.Code(), metadata.value.0, [], metadata.value.1)])
      ensures !failed && metadata.Some? ==> |chunks| == 2
    {
      this.env, this.compression, this.finalPadding := env, compression, finalPadding;
      this.chunkSize := Min(chunkSizeOption, 8 * MAX_NUM_RECORDS);
      sink := new ChunkSink(env.h, capacity);
      encoder := new SC.SimpleChunkEncoder(env.codec, compression);
      accumulatedBytes, pendingRecordCount := 0, 0;
      closed, failed := false, false;
      chunks, written, whole, recent, flushedChunks := [], [], true, [], 0;
      new;
      EmptyFile(env.h);
      EmptyAccounted();
      Begin(metadata);
    }

    /** The part of construction that writes. */
    method Begin(metadata: Option<(Bytes, U64)>)
      requires Configured() && whole && SinkValid() && chunks == [] && written == [] && !closed
      requires encoder.records == [] && accumulatedBytes == Accounted([]) && pendingRecordCount == 0
      requires recent == []
      modifies this`whole, this`chunks, this`failed, this`flushedChunks, sink
      ensures Valid()
      ensures chunks == [SIGNATURE] || (metadata.Some? && chunks ==
        [SIGNATURE, ChunkDesc(CH.ChunkType.FileMetadata.Code(), metadata.value.0, [], metadata.value.1)])
      ensures !failed && metadata.Some? ==> |chunks| == 2
    {
      hide AllowedChunks, FileImage, Start, RecordsFrom, Accounted;
      var ok := WritePreamble(metadata);
      failed, flushedChunks := !ok, |chunks|;
    }

    /** The file signature, then the optional metadata chunk. */
    method WritePreamble(metadata: Option<(Bytes, U64)>) returns (ok: bool)
      requires sink.h == env.h && whole && SinkValid() && chunks == []
      modifies this`whole, this`chunks, sink
      ensures SinkValid() && whole == ok
      ensures ChunksValid() && RecordsFrom(chunks, 0) == []
      ensures chunks == [SIGNATURE] || (metadata.Some? && chunks ==
        [SIGNATURE, ChunkDesc(CH.ChunkType.FileMetadata.Code(), metadata.value.0, [], metadata.value.1)])
      ensures ok && metadata.Some? ==> |chunks| == 2
    {
      hide WellFormed, FileImage, Image, Start, WithinThreshold;
      SignatureIsWellFormed(env);
      ok := AppendChunk(CH.FromParts(env.h, [], SIGNATURE.typeByte, 0, 0), [], SIGNATURE);
      assert RecordsFrom([SIGNATURE], 1) == [];
      if ok && metadata.Some? {
        var (data, size) := metadata.value;
        var header := CH.FromParts(env.h, data, CH.ChunkType.FileMetadata.Code(), 0, size);
        ghost var c := ChunkDesc(CH.ChunkType.FileMetadata.Code(), data, [], size);
        MetadataIsWellFormed(env, data, size);
        RecordsFromSnoc(chunks, c, 0);
        OneMoreChunk(env, chunks, c, chunkSize);
        ok := AppendChunk(header, data, c);
      }
    }

    /** Hands one chunk to the sink, which may run out of room. */
    method AppendChunk(header: CH.ChunkHeader, data: Bytes, ghost c: ChunkDesc) returns (ok: bool)
      requires header == HeaderOf(env.h, c) && data == c.data && WellFormed(env, c)
      requires sink.h == env.h && whole && SinkValid()
      modifies this`whole, this`chunks, sink
      ensures SinkValid() && whole == ok
      ensures chunks == old(chunks) + [c]
    {
      hide Image, End, IsPossibleChunkBoundary, HeaderOf;
      ghost var before := chunks;
      Layout.AppendChunk(env.h, before, c);
      StartOfPrefix(before + [c], |before|, |before|);
      assert |c.records| < CH.TWO_56;
      hide WellFormed, FileImage;
      ok := sink.WriteChunkRaw(header, data, c);
      chunks := before + [c];
      whole := ok;
    }

    /** Turns the pending records into a chunk. They are gone from the encoder even if that fails. */
    method FlushChunk() returns (ok: bool)
      requires Consistent() && whole && WithinThreshold(encoder.records, chunkSize)
      modifies this`encoder, this`accumulatedBytes, this`pendingRecordCount, this`chunks, this`whole, sink
      ensures Consistent() && whole == ok && fresh(encoder)
      ensures pendingRecordCount == 0 && accumulatedBytes == 0 && encoder.records == []
      ensures written == old(written) && (ok ==> RecordsFrom(chunks, 0) == written)
      ensures old(chunks) <= chunks
      ensures ok ==> AreBatches(env.codec, compression, chunks[|old(chunks)|..], [old(encoder.records)])
    {
      hide WellFormed, WithinThreshold, AllowedChunks, RecordsFrom, Accounted, FileImage, Start;
      EmptyAccounted();
      var full := encoder;
      encoder := new SC.SimpleChunkEncoder(env.codec, compression);
      accumulatedBytes, pendingRecordCount := 0, 0;
      var encoded := full.EncodeChunk();
      if encoded.None? {
        whole := false;
        assert sink.out <= FileImage(env.h, chunks);
        return false;
      }
      var (data, numRecords, decodedSize) := encoded.value;
      RecordChunkIsWellFormed(env, compression, full.records, chunkSize);
      ghost var c := RecordChunk(data, full.records);
      RecordsFromSnoc(chunks, c, 0);
      OneMoreChunk(env, chunks, c, chunkSize);
      var header := CH.FromParts(env.h, data, CH.ChunkType.Simple.Code(), numRecords, decodedSize);
      ok := AppendChunk(header, data, c);
    }

    /** Adds a padding chunk if the file size is not yet a multiple of the alignment. */
    method WritePaddingToMultiple(alignment: nat) returns (ok: bool)
      requires Consistent() && whole
      modifies this`chunks, this`whole, sink
      ensures Consistent() && whole == ok
      ensures RecordsFrom(chunks, 0) == RecordsFrom(old(chunks), 0)
      ensures ok ==> PaddingAdds(alignment, old(chunks), chunks)
      ensures ok ==> Aligned(sink.filePos, alignment)
    {
      hide WellFormed, WithinThreshold, AllowedChunks, RecordsFrom, Accounted, FileImage, Start,
           IsPossibleChunkBoundary, Distance, CanEndPaddingAt, PadsTo, PaddingAdds, End, Aligned;
      ghost var before := chunks;
      var current := sink.filePos;
      var endPos := PosAfterPadding(current, alignment);
      PaddingFacts(current, alignment, endPos);
      if endPos == current {
        PaddedTo(alignment, chunks, chunks);
        return true;
      }
      var distance := DistanceWithoutOverhead(current, endPos);
      var dataSize := distance - CHUNK_HEADER_SIZE;
      ghost var c := ChunkDesc(CH.ChunkType.Padding.Code(), Zeros(dataSize), [], 0);
      PaddingIsWellFormed(env, dataSize);
      RecordsFromSnoc(chunks, c, 0);
      OneMoreChunk(env, chunks, c, chunkSize);
      PaddingChunkEndsThere(current, endPos);
      EndIsChunkEnd(current, c);
      StartAfterAppend(chunks, c);
      PaddedTo(alignment, before, before + [c]);
      ok := AppendChunk(CH.FromParts(env.h, Zeros(dataSize), CH.ChunkType.Padding.Code(), 0, 0), Zeros(dataSize), c);
    }

    /** The record joins those that wait. */
    method AddPending(data: Bytes)
      requires Consistent() && whole
      modifies this`accumulatedBytes, this`pendingRecordCount, this`written, encoder
      ensures Consistent() && encoder.records == old(encoder.records) + [data]
      ensures written == old(written) + [data]
    {
      hide AllowedChunks, RecordsFrom, FileImage, Start, Accounted;
      AccountedSnoc(encoder.records, data);
      accumulatedBytes := accumulatedBytes + |data| + 8;
      pendingRecordCount := pendingRecordCount + 1;
      encoder.AddRecord(data);
      written := written + [data];
    }

    /** `write_record` behind the checks. */
    method WriteRecordImpl(data: Bytes) returns (ok: bool)
      requires Valid() && !failed && |data| <= MAX_RECORD
      modifies this, encoder, sink
      ensures Consistent() && whole == ok && (encoder == old(encoder) || fresh(encoder))
      ensures failed == old(failed) && closed == old(closed)
      ensures recent == old(recent) + [data] && flushedChunks == old(flushedChunks)
      ensures ok ==> CutValid() && written == old(written) + [data]
      ensures written == old(written) || written == old(written) + [data]
      ensures Accepts(old(chunks), old(encoder.records), data, ok)
    {
      hide AllowedChunks, RecordsFrom, FileImage, Start, Accounted, AreBatches, CutAll, WithinThreshold, CanWait;
      ghost var before, pending := chunks, encoder.records;
      MayBecomeChunk(encoder.records, data, chunkSize);
      AccountedSnoc(encoder.records, data);
      EmptyAccounted();
      CutOneMore(recent, data, chunkSize);
      recent := recent + [data];
      var addedSize := |data| + 8;
      NoBatches(env.codec, compression, chunks);
      if accumulatedBytes + addedSize > chunkSize && accumulatedBytes > 0 {
        ok := FlushChunk();
        if !ok {
          return;
        }
      }
      ghost var between := chunks;
      AddPending(data);
      ok := true;
      NoBatches(env.codec, compression, chunks);
      if accumulatedBytes + 8 > chunkSize {
        ok := FlushChunk();
      }
      if ok {
        AcceptKeepsWaiting(pending, data, chunkSize);
        AcceptedBatches(env.codec, compression, before, between, chunks, pending, data, chunkSize);
        MoreBatches(env.codec, compression, before, chunks, flushedChunks, CutAll(old(recent), chunkSize).groups,
                    Accept(pending, data, chunkSize).groups);
      }
    }

    /** Accepts one record, unless the writer is closed or an earlier operation failed. */
    method WriteRecord(data: Bytes) returns (ok: bool)
      requires Valid() && |data| <= MAX_RECORD
      modifies this, encoder, sink
      ensures Valid() && (encoder == old(encoder) || fresh(encoder)) && closed == old(closed)
      ensures old(closed) || old(failed) ==>
        !ok && failed == old(failed) && sink.out == old(sink.out) && written == old(written)
      ensures ok ==> !failed && written == old(written) + [data] && recent == old(recent) + [data]
      ensures !old(closed) && !old(failed) ==> Accepts(old(chunks), old(encoder.records), data, ok)
      ensures written == old(written) || written == old(written) + [data]
      ensures !ok && !old(closed) ==> failed
    {
      hide AllowedChunks, RecordsFrom, FileImage, Start, Accounted;
      if closed || failed {
        return false;
      }
      ok := WriteRecordImpl(data);
      failed := !ok;
    }

    /** `flush_impl`, which `close` runs as well. */
    method FlushImpl() returns (ok: bool)
      requires Valid() && !failed
      modifies this, encoder, sink
      ensures Consistent() && whole == ok && (encoder == old(encoder) || fresh(encoder))
      ensures failed == old(failed) && closed == old(closed) && written == old(written)
      ensures pendingRecordCount == 0
      ensures ok ==> RecordsFrom(chunks, 0) == written && sink.out == FileImage(env.h, chunks)
      ensures ok ==> CutValid() && recent == []
      ensures ok ==> FlushAdds(env.codec, compression, finalPadding, old(chunks), old(encoder.records), chunks)
      ensures ok && finalPadding > 0 ==> |sink.out| % finalPadding == 0
    {
      hide AllowedChunks, RecordsFrom, FileImage, Start, Accounted, AreBatches, CutAll, PaddingAdds, FlushAdds,
           WithinThreshold;
      ghost var before, pending := chunks, encoder.records;
      NoBatches(env.codec, compression, chunks);
      NoPadding(chunks);
      EmptyCut(chunkSize);
      MayBecomeChunk(encoder.records, [], chunkSize);
      ok := true;
      if pendingRecordCount > 0 {
        ok := FlushChunk();
        if !ok {
          return;
        }
      }
      ghost var between := chunks;
      NoPadding(chunks);
      if finalPadding > 0 {
        ok := WritePaddingToMultiple(finalPadding);
        FileImageLength(env.h, chunks);
      }
      recent, flushedChunks := [], |chunks|;
      NoBatches(env.codec, compression, chunks);
      if ok {
        FlushInTwoSteps(env.codec, compression, finalPadding, before, pending, between, chunks);
      }
    }

    /** After a successful flush the sink holds exactly the chunks, and they hold every record accepted. */
    method Flush() returns (ok: bool)
      requires Valid()
      modifies this, encoder, sink
      ensures Valid() && (encoder == old(encoder) || fresh(encoder)) && closed == old(closed) && written == old(written)
      ensures old(closed) ==> ok && sink.out == old(sink.out)
      ensures old(failed) && !old(closed) ==> !ok && failed && sink.out == old(sink.out)
      ensures ok && !old(closed) ==>
        !failed && RecordsFrom(chunks, 0) == written && sink.out == FileImage(env.h, chunks)
      ensures ok && !old(closed) ==> pendingRecordCount == 0 && recent == []
      ensures ok && !old(closed) ==>
        FlushAdds(env.codec, compression, finalPadding, old(chunks), old(encoder.records), chunks)
      ensures ok && !old(closed) && finalPadding > 0 ==> |sink.out| % finalPadding == 0
      ensures !ok ==> failed
    {
      hide AllowedChunks, FileImage, Start, RecordsFrom, Accounted;
      if closed {
        return true;
      }
      if failed {
        return false;
      }
      ok := FlushImpl();
      failed := !ok;
    }

    /** `flush_internal`: the writer is closed whether or not the last flush succeeds. */
    method Close() returns (ok: bool)
      requires Valid()
      modifies this, encoder, sink
      ensures Valid() && (encoder == old(encoder) || fresh(encoder)) && closed && written == old(written)
      ensures old(closed) ==> ok && sink.out == old(sink.out)
      ensures old(failed) && !old(closed) ==> !ok && failed && sink.out == old(sink.out)
      ensures ok && !old(closed) ==>
        !failed && RecordsFrom(chunks, 0) == written && sink.out == FileImage(env.h, chunks)
      ensures ok && !old(closed) ==> pendingRecordCount == 0 && recent == []
      ensures ok && !old(closed) ==>
        FlushAdds(env.codec, compression, finalPadding, old(chunks), old(encoder.records), chunks)
      ensures ok && !old(closed) && finalPadding > 0 ==> |sink.out| % finalPadding == 0
    {
      hide AllowedChunks, FileImage, Start, RecordsFrom, Accounted;
      if closed {
        return true;
      }
      closed := true;
      if failed {
        return false;
      }
      ok := FlushImpl();
      failed := !ok;
    }
  }

  /**
   In every state of a writer that has not failed, the chunks since the last flush are the only
   greedy cut of the records accepted since then: each is as long as the threshold lets it be,
   and the records that wait still leave room for an empty one.
   */
  lemma WriterCutsGreedily(w: RecordWriter) returns (groups: seq<seq<Bytes>>)
    requires w.Valid() && !w.failed
    ensures w.flushedChunks <= |w.chunks|
    ensures AreBatches(w.env.codec, w.compression, w.chunks[w.flushedChunks..], groups)
    ensures Greedy(groups, w.encoder.records, w.chunkSize) && Joined(groups, w.encoder.records) == w.recent
    ensures forall others, pending ::
      Greedy(others, pending, w.chunkSize) && Joined(others, pending) == w.recent ==>
        others == groups && pending == w.encoder.records
  {
    hide AllowedChunks, FileImage, Start, RecordsFrom, Accounted, AreBatches, CutAll, Greedy, Joined, CanWait;
    CutIsGreedy(w.recent, w.chunkSize);
    groups := CutAll(w.recent, w.chunkSize).groups;
    forall others, pending | Greedy(others, pending, w.chunkSize) && Joined(others, pending) == w.recent
      ensures others == groups && pending == w.encoder.records
    {
      GreedyIsUnique(others, pending, groups, w.encoder.records, w.chunkSize);
    }
  }

  lemma EmptyCut(chunkSize: nat)
    ensures CutAll([], chunkSize) == Cut([], [])
  {
  }

  lemma EmptyAccounted()
    ensures Accounted([]) == 0
  {
  }

  lemma EmptyFile(h: Hash)
    ensures FileImage(h, []) == [] && Start([], 0) == 0
  {
  }

  lemma SignatureIsWellFormed(env: Env)
    ensures WellFormed(env, SIGNATURE)
  {
  }

  lemma MetadataIsWellFormed(env: Env, data: Bytes, size: U64)
    ensures WellFormed(env, ChunkDesc(CH.ChunkType.FileMetadata.Code(), data, [], size))
  {
  }

  lemma PaddingIsWellFormed(env: Env, n: nat)
    ensures WellFormed(env, ChunkDesc(CH.ChunkType.Padding.Code(), Zeros(n), [], 0))
  {
  }

  lemma FileImageLength(h: Hash, cs: seq<ChunkDesc>)
    ensures |FileImage(h, cs)| == Start(cs, |cs|)
  {
  }

  lemma StartAfterAppend(cs: seq<ChunkDesc>, c: ChunkDesc)
    ensures Start(cs + [c], |cs| + 1) == End(Start(cs, |cs|), c)
    ensures IsPossibleChunkBoundary(Start(cs, |cs|))
  {
    StartOfPrefix(cs + [c], |cs|, |cs|);
    assert (cs + [c])[..|cs|] == cs;
  }
}
