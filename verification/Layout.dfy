/**
 What a well-formed file looks like, byte by byte: every chunk is laid out from a possible
 chunk boundary with block headers interleaved, and the next chunk begins where it ends.
 */
module Layout {
  import opened Bytes
  import opened BlockArithmetic
  import BH = BlockHeaders
  import CH = ChunkHeaders

  /** A chunk as the writer hands it to the file: type byte, data, and the records the data stand for. */
  datatype ChunkDesc = ChunkDesc(typeByte: Byte, data: Bytes, records: seq<Bytes>, decodedSize: nat)

  function HeaderOf(h: Hash, c: ChunkDesc): CH.ChunkHeader {
    CH.FromParts(h, c.data, c.typeByte, |c.records|, c.decodedSize)
  }

  function End(b: nat, c: ChunkDesc): nat { ChunkEnd(b, |c.data|, |c.records|) }

  /** The position after the last data byte; padding for the record count may follow. */
  function DataEnd(b: nat, c: ChunkDesc): nat { Advance(b, CHUNK_HEADER_SIZE + |c.data|) }

  lemma EndFacts(b: nat, c: ChunkDesc)
    requires IsPossibleChunkBoundary(b)
    ensures IsPossibleChunkBoundary(End(b, c))
    ensures b + CHUNK_HEADER_SIZE <= Advance(b, CHUNK_HEADER_SIZE) <= DataEnd(b, c) <= End(b, c)
    ensures b + |c.records| <= End(b, c)
    ensures Rank(b) + CHUNK_HEADER_SIZE + |c.data| <= Rank(End(b, c))
  {
    hide Rank, Advance, ChunkEnd, RoundUpToPossibleChunkBoundary;
    CanonicalFacts(b);
    ChunkEndFacts(b, |c.data|, |c.records|);
    assert DataEnd(b, c) == Advance(b, CHUNK_HEADER_SIZE + |c.data|) <= ChunkEnd(b, |c.data|, |c.records|) by {
      assert CanonicalChunkAddress(b) == b;
    }
  }

  /** The usable bytes of a chunk laid out from `b`: header, data, then zeros up to its end. */
  function Payload(h: Hash, b: nat, c: ChunkDesc): (r: Bytes)
    requires IsPossibleChunkBoundary(b)
    ensures |r| == Rank(End(b, c)) - Rank(b)
  {
    EndFacts(b, c);
    HeaderOf(h, c).ToBytes() + c.data + Zeros(Rank(End(b, c)) - Rank(b) - CHUNK_HEADER_SIZE - |c.data|)
  }

  /** The block header at boundary `q` inside the chunk laid out from `b`. */
  function BlockHeaderBytes(h: Hash, b: nat, c: ChunkDesc, q: nat): (r: Bytes)
    requires IsPossibleChunkBoundary(b) && b <= q < End(b, c)
    ensures |r| == 24
  {
    BH.FromParts(h, q - b, End(b, c) - q).ToBytes()
  }

  lemma InsideChunk(b: nat, e: nat, p: nat)
    requires IsPossibleChunkBoundary(b) && IsPossibleChunkBoundary(e) && b <= p < e
    ensures b <= RoundDownToBlockBoundary(p) || p % BLOCK_SIZE > BLOCK_HEADER_SIZE
    ensures p % BLOCK_SIZE >= BLOCK_HEADER_SIZE ==> Rank(b) <= Rank(p) < Rank(e)
    ensures p % BLOCK_SIZE < BLOCK_HEADER_SIZE ==> RoundDownToBlockBoundary(p) + BLOCK_HEADER_SIZE < e
  {
    RankMonotone(b, p);
    RankMonotone(p, e);
  }

  /** The byte at position `p` of the chunk laid out from `b`. */
  function ByteAt(h: Hash, b: nat, c: ChunkDesc, p: nat): Byte
    requires IsPossibleChunkBoundary(b) && b <= p < End(b, c)
  {
    EndFacts(b, c);
    InsideChunk(b, End(b, c), p);
    if p % BLOCK_SIZE < BLOCK_HEADER_SIZE then
      BlockHeaderBytes(h, b, c, RoundDownToBlockBoundary(p))[p % BLOCK_SIZE]
    else
      Payload(h, b, c)[Rank(p) - Rank(b)]
  }

  /** All the bytes of the chunk laid out from `b`. */
  function Image(h: Hash, b: nat, c: ChunkDesc): (r: Bytes)
    requires IsPossibleChunkBoundary(b)
    ensures |r| == End(b, c) - b
  {
    EndFacts(b, c);
    seq<Byte>(End(b, c) - b, i requires 0 <= i < End(b, c) - b => ByteAt(h, b, c, b + i))
  }

  /** Where chunk `i` begins when the chunks are laid out one after the other from position 0. */
  function Start(cs: seq<ChunkDesc>, i: nat): (r: nat)
    requires i <= |cs|
    ensures IsPossibleChunkBoundary(r)
  {
    if i == 0 then 0
    else
      EndFacts(Start(cs, i - 1), cs[i - 1]);
      End(Start(cs, i - 1), cs[i - 1])
  }

  /** The whole file holding the chunks. */
  function FileImage(h: Hash, cs: seq<ChunkDesc>): (r: Bytes)
    ensures |r| == Start(cs, |cs|)
  {
    if cs == [] then []
    else
      var n := |cs| - 1;
      LastStart(cs);
      hide Image, IsPossibleChunkBoundary;
      FileImage(h, cs[..n]) + Image(h, Start(cs, n), cs[n])
  }

  lemma LastStart(cs: seq<ChunkDesc>)
    requires cs != []
    ensures var n := |cs| - 1;
      Start(cs[..n], n) == Start(cs, n) && Start(cs, n) <= End(Start(cs, n), cs[n]) == Start(cs, |cs|)
  {
    var n := |cs| - 1;
    StartOfPrefix(cs, n, n);
    EndFacts(Start(cs, n), cs[n]);
    hide End, IsPossibleChunkBoundary;
  }

  lemma {:induction false} StartOfPrefix(cs: seq<ChunkDesc>, n: nat, i: nat)
    requires i <= n <= |cs|
    ensures Start(cs[..n], i) == Start(cs, i)
  {
    if i > 0 {
      StartOfPrefix(cs, n, i - 1);
    }
  }

  lemma {:induction false} StartMonotone(cs: seq<ChunkDesc>, i: nat, j: nat)
    requires i <= j <= |cs|
    ensures Start(cs, i) + CHUNK_HEADER_SIZE * (j - i) <= Start(cs, j)
  {
    hide IsPossibleChunkBoundary, End;
    if i < j {
      StartMonotone(cs, i, j - 1);
      EndFacts(Start(cs, j - 1), cs[j - 1]);
    }
  }

  lemma AppendChunk(h: Hash, cs: seq<ChunkDesc>, c: ChunkDesc)
    ensures Start(cs + [c], |cs|) == Start(cs, |cs|)
    ensures FileImage(h, cs + [c]) == FileImage(h, cs) + Image(h, Start(cs, |cs|), c)
  {
    assert (cs + [c])[..|cs|] == cs;
    StartOfPrefix(cs + [c], |cs|, |cs|);
  }

  /** The bytes `[b, upto)` of `f` are those of chunk `c` laid out from `b`. */
  ghost predicate Stored(h: Hash, f: Bytes, b: nat, c: ChunkDesc, upto: nat) {
    && IsPossibleChunkBoundary(b)
    && upto <= End(b, c)
    && forall p | b <= p < upto :: p < |f| && f[p] == ByteAt(h, b, c, p)
  }

  /** Every chunk of a file is stored between its start and the next one's. */
  lemma {:induction false} ChunksAreStored(h: Hash, cs: seq<ChunkDesc>, i: nat)
    requires i < |cs|
    ensures Stored(h, FileImage(h, cs), Start(cs, i), cs[i], Start(cs, i + 1))
  {
    hide End, ByteAt, IsPossibleChunkBoundary;
    var n := |cs| - 1;
    var f := FileImage(h, cs);
    StartOfPrefix(cs, n, n);
    var prior := FileImage(h, cs[..n]);
    assert f == prior + Image(h, Start(cs, n), cs[n]);
    if i == n {
      forall p | Start(cs, n) <= p < Start(cs, n + 1)
        ensures p < |f| && f[p] == ByteAt(h, Start(cs, n), cs[n], p)
      {
        assert f[p] == Image(h, Start(cs, n), cs[n])[p - Start(cs, n)];
      }
    } else {
      ChunksAreStored(h, cs[..n], i);
      StartOfPrefix(cs, n, i);
      StartOfPrefix(cs, n, i + 1);
      StartMonotone(cs, i + 1, n);
    }
  }

  /** The chunk whose extent contains position `p`. */
  lemma {:induction false} FindCovering(cs: seq<ChunkDesc>, n: nat, p: nat) returns (i: nat)
    requires n <= |cs| && p < Start(cs, n)
    ensures i < n && Start(cs, i) <= p < Start(cs, i + 1)
  {
    if p < Start(cs, n - 1) {
      i := FindCovering(cs, n - 1, p);
    } else {
      i := n - 1;
    }
  }

  lemma CoveringIsUnique(cs: seq<ChunkDesc>, i: nat, j: nat, p: nat)
    requires i < |cs| && j < |cs|
    requires Start(cs, i) <= p < Start(cs, i + 1) && Start(cs, j) <= p < Start(cs, j + 1)
    ensures i == j
  {
    hide End, IsPossibleChunkBoundary;
    if i < j {
      StartMonotone(cs, i + 1, j);
    } else if j < i {
      StartMonotone(cs, j + 1, i);
    }
  }

  lemma ByteOfBlockHeader(h: Hash, b: nat, c: ChunkDesc, q: nat, k: nat)
    requires IsPossibleChunkBoundary(b) && IsBlockBoundary(q) && b <= q && k < BLOCK_HEADER_SIZE && q + k < End(b, c)
    ensures ByteAt(h, b, c, q + k) == BlockHeaderBytes(h, b, c, q)[k]
  {
    hide End, BlockHeaderBytes;
    assert RoundDownToBlockBoundary(q + k) == q && (q + k) % BLOCK_SIZE == k;
  }

  lemma ByteOfPayload(h: Hash, b: nat, c: ChunkDesc, p: nat, k: nat)
    requires IsPossibleChunkBoundary(b) && b <= p && p + k < End(b, c)
    requires p % BLOCK_SIZE >= BLOCK_HEADER_SIZE && k < BLOCK_SIZE - p % BLOCK_SIZE
    ensures Rank(b) <= Rank(p) && Rank(p) + k - Rank(b) < |Payload(h, b, c)|
    ensures ByteAt(h, b, c, p + k) == Payload(h, b, c)[Rank(p) + k - Rank(b)]
  {
    hide End, Payload;
    RankMonotone(b, p);
    RankWithinBlock(p, k);
    assert (p + k) % BLOCK_SIZE >= BLOCK_HEADER_SIZE;
  }

  lemma ImageByte(h: Hash, b: nat, c: ChunkDesc, i: nat)
    requires IsPossibleChunkBoundary(b) && i < End(b, c) - b
    ensures Image(h, b, c)[i] == ByteAt(h, b, c, b + i)
  {
  }

  /** A block header is one stretch of the image. */
  lemma ImageAtBoundary(h: Hash, b: nat, c: ChunkDesc, q: nat)
    requires IsPossibleChunkBoundary(b) && IsBlockBoundary(q) && b <= q < End(b, c)
    ensures q + BLOCK_HEADER_SIZE < End(b, c)
    ensures Image(h, b, c)[q - b..q - b + BLOCK_HEADER_SIZE] == BlockHeaderBytes(h, b, c, q)
  {
    EndFacts(b, c);
    InsideChunk(b, End(b, c), q);
    hide End, BlockHeaderBytes, ByteAt, Image, IsPossibleChunkBoundary;
    var i := q - b;
    var s, t := Image(h, b, c)[i..i + BLOCK_HEADER_SIZE], BlockHeaderBytes(h, b, c, q);
    forall k | 0 <= k < BLOCK_HEADER_SIZE
      ensures s[k] == t[k]
    {
      ImageByte(h, b, c, i + k);
      ByteOfBlockHeader(h, b, c, q, k);
    }
  }

  lemma RanksWithinBlock(b: nat, e: nat, p: nat, n: nat)
    requires IsPossibleChunkBoundary(b) && IsPossibleChunkBoundary(e) && b <= p && p + n <= e
    requires p % BLOCK_SIZE >= BLOCK_HEADER_SIZE && n <= BLOCK_SIZE - p % BLOCK_SIZE
    ensures Rank(b) <= Rank(p) && Rank(p) + n == Rank(p + n) <= Rank(e)
  {
    RankMonotone(b, p);
    RankMonotone(p + n, e);
    RankWithinBlock(p, n);
  }

  /** Away from block headers, and within one block, the image is a stretch of the payload. */
  lemma ImageWithinBlock(h: Hash, b: nat, c: ChunkDesc, p: nat, j: nat, n: nat)
    requires IsPossibleChunkBoundary(b) && b <= p && p + n <= End(b, c)
    requires p % BLOCK_SIZE >= BLOCK_HEADER_SIZE && n <= BLOCK_SIZE - p % BLOCK_SIZE
    requires Rank(p) == Rank(b) + j && j + n <= |Payload(h, b, c)|
    ensures Image(h, b, c)[p - b..p - b + n] == Payload(h, b, c)[j..j + n]
  {
    hide End, Payload, ByteAt, Image, IsPossibleChunkBoundary, Rank;
    var i := p - b;
    var s, t := Image(h, b, c)[i..i + n], Payload(h, b, c)[j..j + n];
    forall k | 0 <= k < n
      ensures s[k] == t[k]
    {
      ImageByte(h, b, c, i + k);
      ByteOfPayload(h, b, c, p, k);
    }
  }

  lemma JoinSlices<T>(base: seq<T>, img: seq<T>, i: nat, j: nat)
    requires i <= j <= |img|
    ensures base + img[..i] + img[i..j] == base + img[..j]
    ensures base + img[..j] <= base + img
  {
    assert img[..i] + img[i..j] == img[..j];
  }
}
