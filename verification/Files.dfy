/** The records a list of chunks holds, and what makes the list a file. */
module Files {
  import opened Bytes
  import opened BlockArithmetic
  import opened ChunkParsing
  import opened Layout
  import opened StoredChunks
  import BH = BlockHeaders

  const SIGNATURE: ChunkDesc := ChunkDesc(115, [], [], 0)

  lemma SignatureEnds(cs: seq<ChunkDesc>)
    requires |cs| > 0 && cs[0] == SIGNATURE
    ensures Start(cs, 1) == FIRST_CHUNK
  {
    assert Start(cs, 1) == End(Start(cs, 0), cs[0]);
    assert Advance(0, 40) == 64;
  }

  /** Chunk 0 is the file signature and every chunk's data stand for its records. */
  predicate WellFormedFile(env: Env, cs: seq<ChunkDesc>) {
    |cs| > 0 && cs[0] == SIGNATURE && forall c | c in cs :: WellFormed(env, c)
  }

  /** The records of the chunks from number `i` on. */
  function RecordsFrom(cs: seq<ChunkDesc>, i: nat): seq<Bytes>
    requires i <= |cs|
    decreases |cs| - i
  {
    if i == |cs| then [] else cs[i].records + RecordsFrom(cs, i + 1)
  }

  lemma {:induction false} RecordsFromSnoc(cs: seq<ChunkDesc>, c: ChunkDesc, i: nat)
    requires i <= |cs|
    ensures RecordsFrom(cs + [c], i) == RecordsFrom(cs, i) + c.records
    decreases |cs| - i
  {
    if i < |cs| {
      RecordsFromSnoc(cs, c, i + 1);
    } else {
      assert RecordsFrom(cs + [c], |cs| + 1) == [];
    }
  }

  /**
   Every block boundary of a file holds a valid block header, and its two pointers give the
   beginning and the end of the one chunk that covers the boundary; the file ends at a
   possible chunk boundary.
   */
  lemma BoundariesPointToTheirChunk(env: Env, cs: seq<ChunkDesc>, q: nat) returns (i: nat)
    requires Start(cs, |cs|) < TWO_64
    requires IsBlockBoundary(q) && q < Start(cs, |cs|)
    ensures IsPossibleChunkBoundary(Start(cs, |cs|))
    ensures i < |cs| && Start(cs, i) <= q < Start(cs, i + 1)
    ensures Agrees(env.h, FileImage(env.h, cs), q, Start(cs, i), Start(cs, i + 1))
    ensures forall j | 0 <= j < |cs| && j != i :: !(Start(cs, j) <= q < Start(cs, j + 1))
  {
    hide End, Agrees, FileImage, IsBlockBoundary, IsPossibleChunkBoundary;
    i := FindCovering(cs, |cs|, q);
    BoundaryAgrees(env, cs, i, q);
    forall j | 0 <= j < |cs| && j != i
      ensures !(Start(cs, j) <= q < Start(cs, j + 1))
    {
      if Start(cs, j) <= q < Start(cs, j + 1) {
        CoveringIsUnique(cs, i, j, q);
      }
    }
  }

  lemma BoundaryAgrees(env: Env, cs: seq<ChunkDesc>, i: nat, q: nat)
    requires Start(cs, |cs|) < TWO_64 && i < |cs|
    requires IsBlockBoundary(q) && Start(cs, i) <= q < Start(cs, i + 1)
    ensures Agrees(env.h, FileImage(env.h, cs), q, Start(cs, i), Start(cs, i + 1))
  {
    hide End, Image, IsBlockBoundary, IsPossibleChunkBoundary, ByteAt;
    var h, f := env.h, FileImage(env.h, cs);
    var b, c := Start(cs, i), cs[i];
    ChunksAreStored(h, cs, i);
    StartMonotone(cs, i + 1, |cs|);
    ImageAtBoundary(h, b, c, q);
    forall k | 0 <= k < BLOCK_HEADER_SIZE
      ensures f[q..q + BLOCK_HEADER_SIZE][k] == BlockHeaderBytes(h, b, c, q)[k]
    {
      ByteOfBlockHeader(h, b, c, q, k);
      assert f[q + k] == ByteAt(h, b, c, q + k);
    }
    assert f[q..q + BLOCK_HEADER_SIZE] == BlockHeaderBytes(h, b, c, q);
    BH.WrittenHeaderReadsBack(h, q - b, End(b, c) - q);
  }
}
