/** The reader's view of chunks laid out by the writer: a stored chunk parses back to what was stored. */
module StoredChunks {
  import opened Bytes
  import opened BlockArithmetic
  import opened ChunkParsing
  import opened Layout
  import BH = BlockHeaders
  import CH = ChunkHeaders
  import SC = SimpleChunk

  predicate IsDataChunk(c: ChunkDesc) {
    c.typeByte == CH.ChunkType.Simple.Code() || c.typeByte == CH.ChunkType.Transposed.Code()
  }

  /** The chunk's data really stand for its records, and its header fields fit their widths. */
  predicate WellFormed(env: Env, c: ChunkDesc) {
    && |c.records| < CH.TWO_56 && c.decodedSize < TWO_64
    && match CH.TypeOfByte(c.typeByte)
       case Some(Simple) => SC.DecodeData(env.codec, c.data, |c.records|, c.decodedSize) == Some(c.records)
       case Some(Transposed) => env.transposed(HeaderOf(env.h, c), c.data) == Some(c.records)
       case Some(FileSignature) => c.data == [] && c.records == [] && c.decodedSize == 0
       case Some(Padding) => c.records == [] && c.decodedSize == 0
       case Some(FileMetadata) => c.records == []
       case None => c.records == []
  }

  /** The bytes of `f` from `b` on, as far as they go, are those of the chunk up to its last data byte. */
  ghost predicate StoredSoFar(h: Hash, f: Bytes, b: nat, c: ChunkDesc) {
    && IsPossibleChunkBoundary(b) && End(b, c) < TWO_64
    && (EndFacts(b, c); forall p | b <= p < DataEnd(b, c) && p < |f| :: f[p] == ByteAt(h, b, c, p))
  }

  lemma StoredBlockHeaderBytes(h: Hash, f: Bytes, b: nat, c: ChunkDesc, q: nat)
    requires StoredSoFar(h, f, b, c)
    requires IsBlockBoundary(q) && b <= q && q + BLOCK_HEADER_SIZE <= DataEnd(b, c)
    requires q + BLOCK_HEADER_SIZE <= |f|
    ensures q < End(b, c) && f[q..q + BLOCK_HEADER_SIZE] == BlockHeaderBytes(h, b, c, q)
  {
    EndFacts(b, c);
    hide End, DataEnd, ByteAt, BlockHeaderBytes, IsBlockBoundary, IsPossibleChunkBoundary;
    forall k | 0 <= k < BLOCK_HEADER_SIZE
      ensures f[q..q + BLOCK_HEADER_SIZE][k] == BlockHeaderBytes(h, b, c, q)[k]
    {
      ByteOfBlockHeader(h, b, c, q, k);
      assert f[q + k] == ByteAt(h, b, c, q + k);
    }
  }

  lemma StoredBlockHeader(h: Hash, f: Bytes, b: nat, c: ChunkDesc, q: nat)
    requires StoredSoFar(h, f, b, c)
    requires IsBlockBoundary(q) && b <= q && q + BLOCK_HEADER_SIZE <= DataEnd(b, c)
    requires q + BLOCK_HEADER_SIZE <= |f|
    ensures Agrees(h, f, q, b, End(b, c))
  {
    StoredBlockHeaderBytes(h, f, b, c, q);
    hide End, DataEnd, ByteAt, IsBlockBoundary, IsPossibleChunkBoundary;
    BH.WrittenHeaderReadsBack(h, q - b, End(b, c) - q);
  }

  /** Where usable byte `i` of a chunk laid out from `b` is. */
  lemma UsableBytePosition(b: nat, n: nat, i: nat)
    requires IsPossibleChunkBoundary(b) && i < n
    ensures var p := Phys(Rank(b) + i);
      b <= p < Advance(b, n) && p % BLOCK_SIZE >= BLOCK_HEADER_SIZE && Rank(p) == Rank(b) + i
  {
    RankPhys(Rank(b) + i);
    PhysMonotone(Rank(b) + i, Rank(b) + n - 1);
    if Phys(Rank(b) + i) < b {
      RankMonotone(Phys(Rank(b) + i), b);
    }
  }

  lemma StoredUsableByte(h: Hash, f: Bytes, b: nat, c: ChunkDesc, i: nat)
    requires StoredSoFar(h, f, b, c)
    requires i < CHUNK_HEADER_SIZE + |c.data| && Phys(Rank(b) + i) < |f|
    ensures f[Phys(Rank(b) + i)] == (HeaderOf(h, c).ToBytes() + c.data)[i]
  {
    hide End, Rank, Phys, IsPossibleChunkBoundary, HeaderOf;
    EndFacts(b, c);
    UsableBytePosition(b, CHUNK_HEADER_SIZE + |c.data|, i);
    var p := Phys(Rank(b) + i);
    assert f[p] == ByteAt(h, b, c, p) == Payload(h, b, c)[i];
  }

  lemma StoredReadByte(h: Hash, f: Bytes, b: nat, c: ChunkDesc, i: nat)
    requires StoredSoFar(h, f, b, c)
    requires i < CHUNK_HEADER_SIZE + |c.data| && ReadPos(b, i) < |f|
    ensures f[ReadPos(b, i)] == (HeaderOf(h, c).ToBytes() + c.data)[i]
  {
    ReadsUsableBytes(b, i);
    hide StoredSoFar, ReadPos, Rank, Phys, HeaderOf;
    StoredUsableByte(h, f, b, c, i);
  }

  lemma StoredHeader(h: Hash, f: Bytes, b: nat, c: ChunkDesc)
    requires StoredSoFar(h, f, b, c) && ReadEnd(b, CHUNK_HEADER_SIZE) <= |f|
    ensures ReadBytes(f, b, 0, CHUNK_HEADER_SIZE) == HeaderOf(h, c).ToBytes()
  {
    hide ReadPos, HeaderOf, StoredSoFar;
    var s := ReadBytes(f, b, 0, CHUNK_HEADER_SIZE);
    forall i | 0 <= i < CHUNK_HEADER_SIZE
      ensures s[i] == HeaderOf(h, c).ToBytes()[i]
    {
      ReadPosMonotone(b, i, CHUNK_HEADER_SIZE - 1);
      StoredReadByte(h, f, b, c, i);
    }
  }

  lemma StoredData(h: Hash, f: Bytes, b: nat, c: ChunkDesc)
    requires StoredSoFar(h, f, b, c) && ReadEnd(b, CHUNK_HEADER_SIZE + |c.data|) <= |f|
    ensures ReadBytes(f, b, CHUNK_HEADER_SIZE, |c.data|) == c.data
  {
    hide ReadPos, HeaderOf, StoredSoFar;
    var s := ReadBytes(f, b, CHUNK_HEADER_SIZE, |c.data|);
    forall i | 0 <= i < |c.data|
      ensures s[i] == c.data[i]
    {
      ReadPosMonotone(b, CHUNK_HEADER_SIZE + i, CHUNK_HEADER_SIZE + |c.data| - 1);
      StoredReadByte(h, f, b, c, CHUNK_HEADER_SIZE + i);
    }
  }

  /** A position usable bytes are laid out past a boundary lies past the whole block header there. */
  lemma BoundaryHeaderFits(b: nat, n: nat, q: nat)
    requires IsPossibleChunkBoundary(b) && IsBlockBoundary(q) && b <= q < Advance(b, n)
    ensures q + BLOCK_HEADER_SIZE < Advance(b, n)
  {
    hide Rank, Phys, IsPossibleChunkBoundary;
    if n > 0 {
      RankPhys(Rank(b) + n - 1);
      PastBlockHeader(q, Phys(Rank(b) + n - 1));
    }
  }

  lemma PastBlockHeader(q: nat, p: nat)
    requires IsBlockBoundary(q) && q <= p && p % BLOCK_SIZE >= BLOCK_HEADER_SIZE
    ensures q + BLOCK_HEADER_SIZE <= p
  {
    var a, d := q / BLOCK_SIZE, p / BLOCK_SIZE;
    assert q == BLOCK_SIZE * a && p == BLOCK_SIZE * d + p % BLOCK_SIZE;
  }

  lemma NextBoundaryFacts(b: nat)
    ensures IsBlockBoundary(NextBlockBoundary(b)) && b <= NextBlockBoundary(b)
    ensures forall q | b <= q && IsBlockBoundary(q) :: NextBlockBoundary(b) <= q
  {
  }

  /** The header written for a chunk says what the chunk is. */
  lemma WrittenHeaderFields(h: Hash, c: ChunkDesc)
    requires |c.data| < TWO_64 && |c.records| < CH.TWO_56 && c.decodedSize < TWO_64
    ensures var ch := HeaderOf(h, c);
      && CH.FromBytes(ch.ToBytes()) == ch && ch.IsHeaderValid(h) && ch.IsDataValid(h, c.data)
      && ch.Type() == CH.TypeOfByte(c.typeByte) && ch.NumRecords() == |c.records|
      && ch.dataSize == |c.data| && ch.decodedDataSize == c.decodedSize
  {
    CH.WrittenHeaderReadsBack(h, c.data, c.typeByte, |c.records|, c.decodedSize);
  }

  /** The chunk header of a stored chunk is read back, unless the stream is too short for it or for its claims. */
  lemma StoredHeaderReads(h: Hash, f: Bytes, b: nat, c: ChunkDesc)
    requires StoredSoFar(h, f, b, c)
    requires |c.data| < TWO_64 && |c.records| < CH.TWO_56 && c.decodedSize < TWO_64
    ensures var dataBegin := Advance(b, CHUNK_HEADER_SIZE);
      ReadHeaderAt(h, f, b) ==
        if |f| <= b then HeaderEof
        else if |f| < dataBegin || |c.data| > |f| - dataBegin || |c.records| > |f| - b then HeaderError
        else HeaderOk(HeaderOf(h, c), b, dataBegin)
  {
    EndFacts(b, c);
    ReadsUsableBytes(b, CHUNK_HEADER_SIZE);
    CanonicalFacts(b);
    NextBoundaryFacts(b);
    hide StoredSoFar, Agrees, PointsBack, Rank, Phys, ReadPos, ReadEnd, ReadBytes, Advance, End, DataEnd, ChunkEnd,
         NextBlockBoundary, IsBlockBoundary, IsPossibleChunkBoundary, CanonicalChunkAddress, HeaderOf;
    var q, dataBegin := NextBlockBoundary(b), Advance(b, CHUNK_HEADER_SIZE);
    if dataBegin <= |f| {
      StoredHeader(h, f, b, c);
      WrittenHeaderFields(h, c);
      if q < dataBegin {
        BoundaryHeaderFits(b, CHUNK_HEADER_SIZE, q);
        StoredBlockHeader(h, f, b, c, q);
        AgreesPointsBack(h, f, q, b, End(b, c));
      }
      EndIsChunkEnd(b, c);
    }
  }

  lemma AgreesPointsBack(h: Hash, f: Bytes, q: nat, b: nat, e: nat)
    requires Agrees(h, f, q, b, e)
    ensures PointsBack(h, f, q, b)
  {
  }

  lemma EndIsChunkEnd(b: nat, c: ChunkDesc)
    ensures End(b, c) == ChunkEnd(b, |c.data|, |c.records|)
  {
  }

  lemma StoredDataReads(h: Hash, f: Bytes, b: nat, c: ChunkDesc)
    requires StoredSoFar(h, f, b, c)
    ensures ReadDataAt(h, f, b, End(b, c), |c.data|) == if DataEnd(b, c) <= |f| then Some(c.data) else None
  {
    EndFacts(b, c);
    ReadsUsableBytes(b, CHUNK_HEADER_SIZE);
    ReadsUsableBytes(b, CHUNK_HEADER_SIZE + |c.data|);
    hide StoredSoFar, Agrees, Rank, Phys, ReadPos, ReadEnd, Advance, End, ChunkEnd;
    if DataEnd(b, c) <= |f| {
      StoredData(h, f, b, c);
      forall q | Advance(b, CHUNK_HEADER_SIZE) <= q < DataEnd(b, c) && IsBlockBoundary(q)
        ensures Agrees(h, f, q, b, End(b, c))
      {
        BoundaryHeaderFits(b, CHUNK_HEADER_SIZE + |c.data|, q);
        StoredBlockHeader(h, f, b, c, q);
      }
    }
  }

  /** What a stored chunk parses to. */
  function Expected(b: nat, c: ChunkDesc): ChunkParse {
    if IsDataChunk(c) then ParseData(b, End(b, c), c.records) else ParseSkip(b, End(b, c))
  }

  lemma WellFormedClassifies(env: Env, b: nat, c: ChunkDesc)
    requires WellFormed(env, c) && |c.data| < TWO_64
    ensures ClassifyChunk(env, b, End(b, c), HeaderOf(env.h, c), c.data) == Expected(b, c)
    ensures !IsDataChunk(c) ==> c.records == []
  {
    hide End;
    WrittenHeaderFields(env.h, c);
  }

  /** Enough of the chunk is there to read it: its data, and as many positions as it claims records. */
  predicate FullyVisible(f: Bytes, b: nat, c: ChunkDesc) {
    DataEnd(b, c) <= |f| && b + |c.records| <= |f|
  }

  /**
   A chunk of which only part of the bytes may have arrived: nothing there reads as end of
   file, part of it as an error that leaves its extent untrusted, and enough of it as
   exactly the stored chunk.
   */
  lemma StoredChunkParses(env: Env, f: Bytes, b: nat, c: ChunkDesc)
    requires StoredSoFar(env.h, f, b, c) && WellFormed(env, c)
    ensures ParseChunkAt(env, f, b) ==
      if |f| <= b then ParseEof
      else if FullyVisible(f, b, c) then Expected(b, c)
      else ParseUntrusted
  {
    hide StoredSoFar, WellFormed, ReadHeaderAt, ReadDataAt, Rank, Phys, Advance, ChunkEnd, ClassifyChunk, IsDataChunk;
    StoredIsSized(env, f, b, c);
    AdvanceAdditive(b, CHUNK_HEADER_SIZE, |c.data|);
    AdvanceFacts(Advance(b, CHUNK_HEADER_SIZE), |c.data|);
    StoredHeaderReads(env.h, f, b, c);
    StoredDataReads(env.h, f, b, c);
    WrittenHeaderFields(env.h, c);
    WellFormedClassifies(env, b, c);
  }

  lemma StoredIsSized(env: Env, f: Bytes, b: nat, c: ChunkDesc)
    requires StoredSoFar(env.h, f, b, c) && WellFormed(env, c)
    ensures |c.data| < TWO_64 && |c.records| < CH.TWO_56 && c.decodedSize < TWO_64
  {
    EndFacts(b, c);
    RankMonotone(0, End(b, c));
  }

  lemma PrefixStoresSoFar(h: Hash, whole: Bytes, len: nat, b: nat, c: ChunkDesc)
    requires len <= |whole|
    requires Stored(h, whole, b, c, End(b, c)) && End(b, c) < TWO_64
    ensures StoredSoFar(h, whole[..len], b, c)
  {
    EndFacts(b, c);
  }
}
