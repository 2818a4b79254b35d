/**
 What the reader finds at a position of an arbitrary byte sequence. Chunk headers and data
 are picked out by rank; the reader's loops are proved equal to these functions.
 */
module ChunkParsing {
  import opened Bytes
  import opened BlockArithmetic
  import BH = BlockHeaders
  import CH = ChunkHeaders
  import SC = SimpleChunk

  /** The parts of the program taken as given: the hash, the compression libraries and the transposed-chunk decoder. */
  datatype Env = Env(h: Hash, codec: SC.Codec, transposed: (CH.ChunkHeader, Bytes) -> Option<seq<Bytes>>)

  // ---------------------------------------------------------------- block headers

  /** A whole, hash-valid block header stands at `q`. */
  predicate ValidBlockHeaderAt(h: Hash, f: Bytes, q: nat) {
    q + BLOCK_HEADER_SIZE <= |f| && BH.FromBytes(f[q..q + BLOCK_HEADER_SIZE]).IsValid(h)
  }

  function BlockHeaderAt(f: Bytes, q: nat): BH.BlockHeader
    requires q + BLOCK_HEADER_SIZE <= |f|
  {
    BH.FromBytes(f[q..q + BLOCK_HEADER_SIZE])
  }

  /** The block header at `q` says the chunk in progress began at `b`. */
  predicate PointsBack(h: Hash, f: Bytes, q: nat, b: nat) {
    ValidBlockHeaderAt(h, f, q) && BlockHeaderAt(f, q).previousChunk + b == q
  }

  /** ... and that it ends at `e`. */
  predicate Agrees(h: Hash, f: Bytes, q: nat, b: nat, e: nat) {
    PointsBack(h, f, q, b) && q + BlockHeaderAt(f, q).nextChunk == e
  }

  // ---------------------------------------------------------------- chunk header and data

  /**
   Where the reader finds byte `i` of a chunk it takes to begin at `b`. It skips a block
   header only on meeting its first byte, so from a `b` inside a block header (where no chunk
   can begin, but a caller can seek) it first reads the rest of that header as chunk bytes.
   */
  function ReadPos(b: nat, i: nat): nat {
    var k, off := b / BLOCK_SIZE, b % BLOCK_SIZE;
    if off == 0 then Phys(k * USABLE_BLOCK_SIZE + i)
    else if off + i < BLOCK_HEADER_SIZE then b + i
    else Phys(k * USABLE_BLOCK_SIZE + off + i - BLOCK_HEADER_SIZE)
  }

  /** The position after the first `n` bytes read from `b`. */
  function ReadEnd(b: nat, n: nat): nat {
    if n == 0 then b else ReadPos(b, n - 1) + 1
  }

  lemma ReadPosMonotone(b: nat, i: nat, j: nat)
    requires i <= j
    ensures b + i <= ReadPos(b, i) && ReadPos(b, i) + (j - i) <= ReadPos(b, j)
  {
  }

  lemma ReadEndMonotone(b: nat, m: nat, n: nat)
    requires m <= n
    ensures b + m <= ReadEnd(b, m) && ReadEnd(b, m) + (n - m) <= ReadEnd(b, n)
  {
    hide ReadPos;
    if m > 0 {
      ReadPosMonotone(b, m - 1, n - 1);
    } else if n > 0 {
      ReadPosMonotone(b, 0, n - 1);
    }
  }

  /** From a position that can hold a chunk the bytes read are its usable bytes. */
  lemma ReadsUsableBytes(b: nat, i: nat)
    requires IsPossibleChunkBoundary(b)
    ensures ReadPos(b, i) == Phys(Rank(b) + i)
    ensures ReadEnd(b, i) == Advance(b, i)
  {
  }

  /** Where reading resumes when the next byte would stand at `p`. */
  function SkipBlockHeader(p: nat): nat { if IsBlockBoundary(p) then p + BLOCK_HEADER_SIZE else p }

  /** After `m` bytes the next ones follow each other up to the end of the block. */
  lemma ReadStep(b: nat, m: nat, t: nat)
    requires t < BLOCK_SIZE - SkipBlockHeader(ReadEnd(b, m)) % BLOCK_SIZE
    ensures ReadPos(b, m + t) == SkipBlockHeader(ReadEnd(b, m)) + t
  {
    hide Phys;
    var k, off := b / BLOCK_SIZE, b % BLOCK_SIZE;
    if m == 0 {
      ReadStepFirst(b, t);
    } else if off > 0 && off + m - 1 < BLOCK_HEADER_SIZE {
      ReadStepInHeader(b, m, t);
    } else {
      var r := k * USABLE_BLOCK_SIZE + (if off == 0 then m - 1 else off + m - 1 - BLOCK_HEADER_SIZE);
      assert ReadPos(b, m - 1) == Phys(r) && ReadPos(b, m + t) == Phys(r + 1 + t);
      hide ReadPos;
      PhysStep(r, t);
    }
  }

  lemma ReadStepFirst(b: nat, t: nat)
    requires t < BLOCK_SIZE - SkipBlockHeader(b) % BLOCK_SIZE
    ensures ReadPos(b, t) == SkipBlockHeader(b) + t
  {
  }

  lemma ReadStepInHeader(b: nat, m: nat, t: nat)
    requires m > 0 && 0 < b % BLOCK_SIZE && b % BLOCK_SIZE + m - 1 < BLOCK_HEADER_SIZE
    requires t < BLOCK_SIZE - SkipBlockHeader(b + m) % BLOCK_SIZE
    ensures ReadPos(b, m - 1) == b + m - 1 && ReadPos(b, m + t) == SkipBlockHeader(b + m) + t
  {
  }

  lemma PhysStep(r: nat, t: nat)
    requires t < BLOCK_SIZE - SkipBlockHeader(Phys(r) + 1) % BLOCK_SIZE
    ensures Phys(r + 1 + t) == SkipBlockHeader(Phys(r) + 1) + t
  {
    var k, m := r / USABLE_BLOCK_SIZE, r % USABLE_BLOCK_SIZE;
    PhysOf(k, m);
    if m == USABLE_BLOCK_SIZE - 1 {
      StepToNextBlock(k, t);
    } else {
      StepInBlock(k, m, t);
    }
  }

  lemma PhysOf(k: nat, m: nat)
    requires m < USABLE_BLOCK_SIZE
    ensures Phys(k * USABLE_BLOCK_SIZE + m) == k * BLOCK_SIZE + BLOCK_HEADER_SIZE + m
  {
    var r := k * USABLE_BLOCK_SIZE + m;
    assert r / USABLE_BLOCK_SIZE == k && r % USABLE_BLOCK_SIZE == m;
  }

  lemma StepToNextBlock(k: nat, t: nat)
    requires t < BLOCK_SIZE - SkipBlockHeader((k + 1) * BLOCK_SIZE) % BLOCK_SIZE
    ensures Phys((k + 1) * USABLE_BLOCK_SIZE + t) == SkipBlockHeader((k + 1) * BLOCK_SIZE) + t
  {
    assert SkipBlockHeader((k + 1) * BLOCK_SIZE) % BLOCK_SIZE == BLOCK_HEADER_SIZE;
    PhysOf(k + 1, t);
  }

  lemma StepInBlock(k: nat, m: nat, t: nat)
    requires m < USABLE_BLOCK_SIZE - 1
    requires var p := k * BLOCK_SIZE + BLOCK_HEADER_SIZE + m + 1; t < BLOCK_SIZE - SkipBlockHeader(p) % BLOCK_SIZE
    ensures var p := k * BLOCK_SIZE + BLOCK_HEADER_SIZE + m + 1;
      Phys(k * USABLE_BLOCK_SIZE + m + 1 + t) == SkipBlockHeader(p) + t
  {
    var p := k * BLOCK_SIZE + BLOCK_HEADER_SIZE + m + 1;
    assert p % BLOCK_SIZE == BLOCK_HEADER_SIZE + m + 1;
    PhysOf(k, m + 1 + t);
  }

  /** Bytes `m` to `m + n` of the chunk taken to begin at `b`. */
  function ReadBytes(f: Bytes, b: nat, m: nat, n: nat): (s: Bytes)
    requires n == 0 || ReadEnd(b, m + n) <= |f|
    ensures |s| == n
  {
    seq<Byte>(n, i requires 0 <= i < n => ReadPosMonotone(b, m + i, m + n - 1); f[ReadPos(b, m + i)])
  }

  datatype HeaderRead =
    | HeaderEof
    | HeaderError
    | HeaderOk(ch: CH.ChunkHeader, chunkBegin: nat, dataBegin: nat)

  /** The chunk header read from `b`, when the file reaches its end. */
  function HeaderReadFrom(f: Bytes, b: nat): CH.ChunkHeader
    requires ReadEnd(b, CHUNK_HEADER_SIZE) <= |f|
  {
    CH.FromBytes(ReadBytes(f, b, 0, CHUNK_HEADER_SIZE))
  }

  /**
   The claims of a hash-valid header fit in the stream, and a block header inside the chunk header agrees
   with them.
   */
  predicate ClaimsHold(h: Hash, f: Bytes, b: nat, ch: CH.ChunkHeader) {
    var q, dataBegin := NextBlockBoundary(b), ReadEnd(b, CHUNK_HEADER_SIZE);
    && ch.dataSize <= |f| - dataBegin
    && ch.NumRecords() <= |f| - b
    && (b < q < dataBegin ==> Agrees(h, f, q, b, ChunkEnd(b, ch.dataSize, ch.NumRecords())))
  }

  function ReadHeaderAt(h: Hash, f: Bytes, pos: nat): (r: HeaderRead)
    ensures r.HeaderOk? ==> r.chunkBegin == CanonicalChunkAddress(pos) && r.dataBegin <= |f|
  {
    var b := CanonicalChunkAddress(pos);
    var q, dataBegin := NextBlockBoundary(b), ReadEnd(b, CHUNK_HEADER_SIZE);
    if |f| <= b then HeaderEof
    else if |f| < dataBegin || (q < dataBegin && !PointsBack(h, f, q, b)) then HeaderError
    else
      var ch := HeaderReadFrom(f, b);
      if ch.IsHeaderValid(h) && !ClaimsHold(h, f, b, ch) then HeaderError
      else HeaderOk(ch, b, dataBegin)
  }

  /** The `n` data bytes of the chunk read from `b`, if they are there and every block header among them agrees. */
  function ReadDataAt(h: Hash, f: Bytes, b: nat, e: nat, n: nat): (r: Option<Bytes>)
    ensures r.Some? ==> |r.value| == n && ReadEnd(b, CHUNK_HEADER_SIZE + n) <= |f|
  {
    var dataBegin, dataEnd := ReadEnd(b, CHUNK_HEADER_SIZE), ReadEnd(b, CHUNK_HEADER_SIZE + n);
    if dataEnd <= |f| && (forall q | dataBegin <= q < dataEnd && IsBlockBoundary(q) :: Agrees(h, f, q, b, e))
    then Some(ReadBytes(f, b, CHUNK_HEADER_SIZE, n))
    else None
  }

  // ---------------------------------------------------------------- one chunk

  /** The records of a data chunk; a decoder that succeeds yields as many as the header claims. */
  function DecodeRecords(env: Env, ch: CH.ChunkHeader, t: CH.ChunkType, data: Bytes): (r: Option<seq<Bytes>>)
    ensures r.Some? ==> |r.value| == ch.NumRecords()
  {
    if t == CH.Simple then DecodeSimple(env, ch, data)
    else
      match env.transposed(ch, data)
      case Some(rs) => if |rs| == ch.NumRecords() then Some(rs) else None
      case None => None
  }

  function DecodeSimple(env: Env, ch: CH.ChunkHeader, data: Bytes): (r: Option<seq<Bytes>>)
    ensures r.Some? ==> |r.value| == ch.NumRecords()
  {
    match SC.DecodeData(env.codec, data, ch.NumRecords(), ch.decodedDataSize)
    case Some(rs) => if |rs| == ch.NumRecords() then Some(rs) else None
    case None => None
  }

  datatype ChunkParse =
    | ParseEof                                     // the stream ends where the chunk would begin
    | ParseUntrusted                               // failed before the chunk's extent could be trusted
    | ParseTrusted(b: nat, e: nat, dataHashOk: bool)  // failed although the extent `[b, e)` can be trusted
    | ParseSkip(b: nat, e: nat)                    // a chunk without records
    | ParseData(b: nat, e: nat, records: seq<Bytes>)

  function ClassifyChunk(env: Env, b: nat, e: nat, ch: CH.ChunkHeader, data: Bytes): ChunkParse {
    if !ch.IsDataValid(env.h, data) then ParseTrusted(b, e, false)
    else
      match ch.Type()
      case None => if ch.NumRecords() == 0 then ParseSkip(b, e) else ParseTrusted(b, e, true)
      case Some(t) =>
        if t == CH.Simple || t == CH.Transposed then
          match DecodeRecords(env, ch, t, data)
          case Some(rs) => ParseData(b, e, rs)
          case None => ParseTrusted(b, e, true)
        else if CH.ValidSpecialChunk(ch, t) then ParseSkip(b, e)
        else ParseTrusted(b, e, true)
  }

  function ParseChunkAt(env: Env, f: Bytes, pos: nat): ChunkParse {
    match ReadHeaderAt(env.h, f, pos)
    case HeaderEof => ParseEof
    case HeaderError => ParseUntrusted
    case HeaderOk(ch, b, _) =>
      if !ch.IsHeaderValid(env.h) then ParseUntrusted
      else
        var e := ChunkEnd(b, ch.dataSize, ch.NumRecords());
        match ReadDataAt(env.h, f, b, e, ch.dataSize)
        case None => ParseUntrusted
        case Some(data) => ClassifyChunk(env, b, e, ch, data)
  }

  /**
   Whatever the bytes, the extent found begins at the canonical address, ends at a possible chunk boundary
   past `pos`, and is paid for by file bytes.
   */
  lemma ParseExtent(env: Env, f: Bytes, pos: nat)
    ensures var r := ParseChunkAt(env, f, pos);
      && (r.ParseEof? <==> |f| <= CanonicalChunkAddress(pos))
      && (r.ParseSkip? || r.ParseData? || r.ParseTrusted? ==>
            && r.b == CanonicalChunkAddress(pos)
            && pos < r.e && IsPossibleChunkBoundary(r.e)
            && r.b + CHUNK_HEADER_SIZE <= |f|)
      && (r.ParseData? ==> r.b + |r.records| <= r.e && r.b + |r.records| <= |f|)
  {
    hide Advance, ReadEnd, ReadBytes, ChunkEnd, IsPossibleChunkBoundary, CanonicalChunkAddress, PointsBack, Agrees,
         ReadDataAt, NextBlockBoundary, HeaderReadFrom, DecodeRecords;
    var b := CanonicalChunkAddress(pos);
    ReadEndMonotone(b, 0, CHUNK_HEADER_SIZE);
    assert ReadEnd(b, 0) >= b;
    CanonicalFacts(pos);
    match ReadHeaderAt(env.h, f, pos) {
      case HeaderOk(ch, _, _) =>
        ChunkEndFacts(pos, ch.dataSize, ch.NumRecords());
      case _ =>
    }
  }

  /**
   A chunk header at `b` that can be believed: it is there and its hash is right, its data and as
   many positions as it claims records are there, and every block header inside header and data
   is valid and says that the chunk began at `b` and, behind `b`, where it ends.
   */
  ghost predicate Framed(h: Hash, f: Bytes, b: nat) {
    && ReadEnd(b, CHUNK_HEADER_SIZE) <= |f|
    && var ch := HeaderReadFrom(f, b);
       var e, dataEnd := ChunkEnd(b, ch.dataSize, ch.NumRecords()), ReadEnd(b, CHUNK_HEADER_SIZE + ch.dataSize);
       && ch.IsHeaderValid(h) && dataEnd <= |f| && b + ch.NumRecords() <= |f|
       && forall q | b <= q < dataEnd && IsBlockBoundary(q) ::
            if q == b then PointsBack(h, f, q, b) else Agrees(h, f, q, b, e)
  }

  /** What becomes of a chunk whose header can be believed. */
  function FramedParse(env: Env, f: Bytes, b: nat): ChunkParse
    requires Framed(env.h, f, b)
  {
    var ch := HeaderReadFrom(f, b);
    var data := ReadBytes(f, b, CHUNK_HEADER_SIZE, ch.dataSize);
    ClassifyChunk(env, b, ChunkEnd(b, ch.dataSize, ch.NumRecords()), ch, data)
  }

  /**
   On any bytes: an extent is found exactly where a chunk is framed, from the canonical address to
   the end its header gives; and it is passed over or read exactly if its data match their hash
   and its type and counts allow it.
   */
  lemma ParsesExactlyFramed(env: Env, f: Bytes, pos: nat)
    ensures var b, r := CanonicalChunkAddress(pos), ParseChunkAt(env, f, pos);
      && (|f| > b ==> (r.ParseUntrusted? <==> !Framed(env.h, f, b)))
      && (|f| > b && Framed(env.h, f, b) ==> r == FramedParse(env, f, b))
  {
    hide ReadBytes, ChunkEnd, IsBlockBoundary, PointsBack, ClassifyChunk, CanonicalChunkAddress, ReadEnd,
         NextBlockBoundary;
    var b := CanonicalChunkAddress(pos);
    CanonicalFacts(pos);
    if ReadEnd(b, CHUNK_HEADER_SIZE) <= |f| {
      var n := HeaderReadFrom(f, b).dataSize;
      ReadEndMonotone(b, 0, CHUNK_HEADER_SIZE);
      ReadEndMonotone(b, CHUNK_HEADER_SIZE, CHUNK_HEADER_SIZE + n);
      BoundariesInHeader(b);
      if ReadEnd(b, CHUNK_HEADER_SIZE + n) <= |f| {
        var ch := HeaderReadFrom(f, b);
        ClassifiedIsTrusted(env, b, ChunkEnd(b, n, ch.NumRecords()), ch, ReadBytes(f, b, CHUNK_HEADER_SIZE, n));
      }
    }
  }

  lemma ClassifiedIsTrusted(env: Env, b: nat, e: nat, ch: CH.ChunkHeader, data: Bytes)
    ensures var r := ClassifyChunk(env, b, e, ch, data); !r.ParseUntrusted? && !r.ParseEof? && r.b == b && r.e == e
  {
  }

  /** At most one boundary lies in the forty bytes of a chunk header and the block header among them. */
  lemma BoundariesInHeader(b: nat)
    ensures IsBlockBoundary(NextBlockBoundary(b)) && b <= NextBlockBoundary(b)
    ensures forall q | b <= q < ReadEnd(b, CHUNK_HEADER_SIZE) && IsBlockBoundary(q) :: q == NextBlockBoundary(b)
  {
  }
}
