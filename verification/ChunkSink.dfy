/**
 The physical half of the writer: chunks laid out in a byte sink with block headers
 interleaved. The sink takes `capacity` bytes and then fails, which stands for any write
 error; a failing write may have written part of its bytes.
 */
module ChunkSinks {
  import opened Bytes
  import opened BlockArithmetic
  import opened Layout
  import BH = BlockHeaders
  import CH = ChunkHeaders

  class ChunkSink {
    const h: Hash
    const capacity: nat
    var out: Bytes
    var filePos: nat
    var lastChunkStart: nat

    constructor (h: Hash, capacity: nat)
      ensures this.h == h && this.capacity == capacity
      ensures out == [] && filePos == 0
    {
      this.h, this.capacity := h, capacity;
      out, filePos, lastChunkStart := [], 0, 0;
    }

    /** Everything of the chunk before `filePos` has been written after `base`. */
    ghost predicate Synced(base: Bytes, b: nat, c: ChunkDesc)
      reads this
    {
      && IsPossibleChunkBoundary(b)
      && b <= filePos <= End(b, c)
      && out == base + Image(h, b, c)[..filePos - b]
      && |out| <= capacity
    }

    /** What is left in the sink when a chunk could not be written: some prefix of it. */
    ghost predicate Broken(base: Bytes, b: nat, c: ChunkDesc)
      reads this
    {
      IsPossibleChunkBoundary(b) && base <= out <= base + Image(h, b, c) && |out| <= capacity
    }

    method WriteAll(bytes: Bytes) returns (ok: bool)
      requires |out| <= capacity
      modifies this`out
      ensures |out| <= capacity
      ensures ok ==> out == old(out) + bytes
      ensures !ok ==> old(out) <= out <= old(out) + bytes
    {
      if |out| + |bytes| <= capacity {
        out := out + bytes;
        return true;
      }
      out := out + bytes[..capacity - |out|];
      return false;
    }

    /** Writes the next stretch of the chunk's image. */
    method Emit(bytes: Bytes, ghost base: Bytes, ghost b: nat, ghost c: ChunkDesc) returns (ok: bool)
      requires Synced(base, b, c) && filePos + |bytes| <= End(b, c)
      requires bytes == Image(h, b, c)[filePos - b..filePos - b + |bytes|]
      modifies this`out, this`filePos
      ensures ok ==> Synced(base, b, c) && filePos == old(filePos) + |bytes|
      ensures !ok ==> Broken(base, b, c)
    {
      hide End, Image, IsPossibleChunkBoundary;
      JoinSlices(base, Image(h, b, c), filePos - b, filePos - b + |bytes|);
      ok := WriteAll(bytes);
      if ok {
        filePos := filePos + |bytes|;
      }
    }

    method EmitBlockHeader(b: nat, e: nat, ghost base: Bytes, ghost c: ChunkDesc) returns (ok: bool)
      requires Synced(base, b, c) && IsBlockBoundary(filePos) && filePos < e == End(b, c)
      modifies this`out, this`filePos
      ensures ok ==> Synced(base, b, c) && filePos == old(filePos) + BLOCK_HEADER_SIZE
      ensures !ok ==> Broken(base, b, c)
    {
      ImageAtBoundary(h, b, c, filePos);
      hide End, Image, IsPossibleChunkBoundary, IsBlockBoundary;
      var bh := BH.FromParts(h, filePos - b, e - filePos);
      ok := Emit(bh.ToBytes(), base, b, c);
    }

    lemma PayloadStep(p: nat, n: nat)
      requires p % BLOCK_SIZE >= BLOCK_HEADER_SIZE && n <= BLOCK_SIZE - p % BLOCK_SIZE
      ensures Rank(p + n) == Rank(p) + n
    {
      RankWithinBlock(p, n);
    }

    method EmitPayload(bytes: Bytes, ghost j: nat, ghost base: Bytes, ghost b: nat, ghost c: ChunkDesc)
      returns (ok: bool)
      requires Synced(base, b, c) && filePos + |bytes| <= End(b, c)
      requires filePos % BLOCK_SIZE >= BLOCK_HEADER_SIZE && |bytes| <= BLOCK_SIZE - filePos % BLOCK_SIZE
      requires Rank(filePos) == Rank(b) + j && j + |bytes| <= |Payload(h, b, c)|
      requires bytes == Payload(h, b, c)[j..j + |bytes|]
      modifies this`out, this`filePos
      ensures ok ==> Synced(base, b, c) && filePos == old(filePos) + |bytes| && Rank(filePos) == Rank(b) + j + |bytes|
      ensures !ok ==> Broken(base, b, c)
    {
      hide End, Image, Payload, IsPossibleChunkBoundary, Rank;
      ImageWithinBlock(h, b, c, filePos, j, |bytes|);
      PayloadStep(filePos, |bytes|);
      ok := Emit(bytes, base, b, c);
    }

    /** Writes header and data, a block header before every byte that would stand at a boundary. */
    method WriteBytesWithBlockHeaders(bytes: Bytes, b: nat, e: nat, ghost base: Bytes, ghost c: ChunkDesc)
      returns (ok: bool)
      requires Synced(base, b, c) && filePos == b && e == End(b, c)
      requires bytes == HeaderOf(h, c).ToBytes() + c.data
      modifies this`out, this`filePos
      ensures ok ==> Synced(base, b, c) && IsPossibleChunkBoundary(filePos) && Rank(filePos) == Rank(b) + |bytes|
      ensures !ok ==> Broken(base, b, c)
    {
      hide Image, Payload, IsPossibleChunkBoundary, Rank, End, HeaderOf;
      var offset := 0;
      PayloadStarts(h, b, c);
      while offset < |bytes|
        invariant offset <= |bytes|
        invariant Synced(base, b, c) && IsPossibleChunkBoundary(filePos) && Rank(filePos) == Rank(b) + offset
      {
        MoreToWrite(filePos, e);
        if IsBlockBoundary(filePos) {
          HeaderHoldsNoUsableByte(filePos);
          ok := EmitBlockHeader(b, e, base, c);
          if !ok {
            return;
          }
        }
        var spaceInBlock := BLOCK_SIZE - filePos % BLOCK_SIZE;
        var toWrite := Min(|bytes| - offset, spaceInBlock);
        StepFits(filePos, e, toWrite);
        assert bytes[offset..offset + toWrite] == Payload(h, b, c)[offset..offset + toWrite];
        ok := EmitPayload(bytes[offset..offset + toWrite], offset, base, b, c);
        if !ok {
          return;
        }
        offset := offset + toWrite;
      }
      return true;
    }

    lemma PayloadStarts(h: Hash, b: nat, c: ChunkDesc)
      requires IsPossibleChunkBoundary(b)
      ensures var bytes := HeaderOf(h, c).ToBytes() + c.data;
        |bytes| <= |Payload(h, b, c)| && Payload(h, b, c)[..|bytes|] == bytes
      ensures forall j | |HeaderOf(h, c).ToBytes() + c.data| <= j < |Payload(h, b, c)| :: Payload(h, b, c)[j] == 0
      ensures |Payload(h, b, c)| == Rank(End(b, c)) - Rank(b)
      ensures IsPossibleChunkBoundary(End(b, c))
    {
      EndFacts(b, c);
    }

    lemma MoreToWrite(p: nat, e: nat)
      ensures p >= e ==> Rank(e) <= Rank(p)
      ensures p > e && IsPossibleChunkBoundary(p) ==> Rank(e) < Rank(p)
    {
      if p >= e {
        RankMonotone(e, p);
      }
    }

    lemma HeaderHoldsNoUsableByte(q: nat)
      requires IsBlockBoundary(q)
      ensures Rank(q + BLOCK_HEADER_SIZE) == Rank(q) && (q + BLOCK_HEADER_SIZE) % BLOCK_SIZE == BLOCK_HEADER_SIZE
    {
    }

    /** A step inside one block over usable bytes that belong to the chunk does not pass its end. */
    lemma StepFits(p: nat, e: nat, n: nat)
      requires IsPossibleChunkBoundary(e)
      requires p % BLOCK_SIZE >= BLOCK_HEADER_SIZE || IsPossibleChunkBoundary(p)
      ensures !IsBlockBoundary(p) && IsPossibleChunkBoundary(p) ==> p % BLOCK_SIZE >= BLOCK_HEADER_SIZE
      ensures p % BLOCK_SIZE >= BLOCK_HEADER_SIZE && 0 < n <= BLOCK_SIZE - p % BLOCK_SIZE && Rank(p) + n <= Rank(e) ==>
        p + n <= e
      ensures p % BLOCK_SIZE >= BLOCK_HEADER_SIZE && 0 < n <= BLOCK_SIZE - p % BLOCK_SIZE ==>
        IsPossibleChunkBoundary(p + n)
    {
      if p % BLOCK_SIZE >= BLOCK_HEADER_SIZE && 0 < n <= BLOCK_SIZE - p % BLOCK_SIZE && e < p + n {
        RankWithinBlock(p, n);
        RankMonotone(e, p + n);
      }
    }

    /** Zeros up to the chunk's end, again with a block header at every boundary. */
    method WritePadding(b: nat, e: nat, ghost base: Bytes, ghost c: ChunkDesc) returns (ok: bool)
      requires Synced(base, b, c) && e == End(b, c)
      requires IsPossibleChunkBoundary(filePos)
      requires Rank(filePos) == Rank(b) + |HeaderOf(h, c).ToBytes() + c.data|
      modifies this`out, this`filePos
      ensures ok ==> Synced(base, b, c) && filePos == e
      ensures !ok ==> Broken(base, b, c)
    {
      hide Image, Payload, IsPossibleChunkBoundary, Rank, End, HeaderOf;
      ghost var done := |HeaderOf(h, c).ToBytes() + c.data|;
      PayloadStarts(h, b, c);
      while filePos < e
        invariant Synced(base, b, c)
        invariant filePos % BLOCK_SIZE >= BLOCK_HEADER_SIZE || IsPossibleChunkBoundary(filePos)
        invariant Rank(filePos) >= Rank(b) + done
        decreases e - filePos
      {
        StepFits(filePos, e, 0);
        if IsBlockBoundary(filePos) {
          HeaderHoldsNoUsableByte(filePos);
          ok := EmitBlockHeader(b, e, base, c);
          if !ok {
            return;
          }
          continue;
        }
        var spaceInBlock := BLOCK_SIZE - filePos % BLOCK_SIZE;
        var toWrite := Min(e - filePos, spaceInBlock);
        StepFits(filePos, e, toWrite);
        RanksWithinBlock(b, e, filePos, toWrite);
        ghost var j := Rank(filePos) - Rank(b);
        assert Zeros(toWrite) == Payload(h, b, c)[j..j + toWrite];
        ok := EmitPayload(Zeros(toWrite), j, base, b, c);
        if !ok {
          return;
        }
      }
      return true;
    }

    /** One whole chunk. On success exactly its image has been appended; on failure, a prefix of it. */
    method WriteChunkRaw(header: CH.ChunkHeader, data: Bytes, ghost c: ChunkDesc) returns (ok: bool)
      requires header == HeaderOf(h, c) && data == c.data && |c.records| < CH.TWO_56
      requires IsPossibleChunkBoundary(filePos) && |out| <= capacity
      modifies this`out, this`filePos, this`lastChunkStart
      ensures |out| <= capacity
      ensures lastChunkStart == old(filePos)
      ensures ok ==> out == old(out) + Image(h, old(filePos), c) && filePos == End(old(filePos), c)
      ensures !ok ==> old(out) <= out <= old(out) + Image(h, old(filePos), c)
    {
      hide Image, Payload, IsPossibleChunkBoundary, ChunkEnd;
      ghost var base := out;
      var chunkStart := filePos;
      CH.PackIsFaithful(c.typeByte, |c.records|);
      var chunkEndPos := ComputeChunkEnd(chunkStart, header.dataSize, header.NumRecords());
      var allBytes := header.ToBytes() + data;
      lastChunkStart := chunkStart;
      EndFacts(chunkStart, c);
      ok := WriteBytesWithBlockHeaders(allBytes, chunkStart, chunkEndPos, base, c);
      if ok {
        ok := WritePadding(chunkStart, chunkEndPos, base, c);
      }
    }
  }
}
