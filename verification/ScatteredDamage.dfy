/**
 What is lost when a file is damaged in any number of places: in chunk data, in chunk headers
 and in block headers. The only assumption is that every damaged piece fails its own hash.
 */
module ScatteredDamage {
  import opened Bytes
  import opened BlockArithmetic
  import opened ChunkParsing
  import opened Layout
  import opened StoredChunks
  import opened Files
  import opened ReaderSpec
  import opened Recovery
  import opened Damage
  import Reading
  import CH = ChunkHeaders

  // ---------------------------------------------------------------- detectable damage

  /** The header of chunk `k` is the one written, unless its hash tells. */
  ghost predicate HeaderTells(env: Env, cs: seq<ChunkDesc>, g: Bytes, k: nat)
    requires k < |cs|
  {
    ReadEnd(Start(cs, k), CHUNK_HEADER_SIZE) <= |g| && HeaderIn(cs, g, k).IsHeaderValid(env.h) ==>
      HeaderIn(cs, g, k) == HeaderOf(env.h, cs[k])
  }

  /** The data of chunk `k` are those written, unless their hash tells. */
  ghost predicate DataTell(env: Env, cs: seq<ChunkDesc>, g: Bytes, k: nat)
    requires k < |cs|
  {
    ReadEnd(Start(cs, k), CHUNK_HEADER_SIZE + |cs[k].data|) <= |g| && DataHashHolds(env, cs, g, k) ==>
      DataIn(cs, g, k) == cs[k].data
  }

  function DataIn(cs: seq<ChunkDesc>, g: Bytes, k: nat): Bytes
    requires k < |cs| && ReadEnd(Start(cs, k), CHUNK_HEADER_SIZE + |cs[k].data|) <= |g|
  {
    ReadBytes(g, Start(cs, k), CHUNK_HEADER_SIZE, |cs[k].data|)
  }

  predicate DataHashHolds(env: Env, cs: seq<ChunkDesc>, g: Bytes, k: nat)
    requires k < |cs| && ReadEnd(Start(cs, k), CHUNK_HEADER_SIZE + |cs[k].data|) <= |g|
  {
    env.h(DataIn(cs, g, k)) == env.h(cs[k].data)
  }

  /** The block header at `q` is the one written, unless its hash tells. */
  ghost predicate BlockHeaderTells(env: Env, cs: seq<ChunkDesc>, g: Bytes, q: nat) {
    ValidBlockHeaderAt(env.h, g, q) && q + BLOCK_HEADER_SIZE <= |FileImage(env.h, cs)| ==>
      g[q..q + BLOCK_HEADER_SIZE] == FileImage(env.h, cs)[q..q + BLOCK_HEADER_SIZE]
  }

  /** `g` is the file of these chunks with any of its bytes changed behind the preamble, as long as the hashes tell. */
  ghost predicate Detectable(env: Env, cs: seq<ChunkDesc>, g: Bytes) {
    && WellFormedFile(env, cs) && Start(cs, |cs|) < TWO_64
    && |g| == Start(cs, |cs|) && PreambleIsIntact(env.h, g)
    && (forall q | IsBlockBoundary(q) :: BlockHeaderTells(env, cs, g, q))
    && (forall k | 0 < k < |cs| :: HeaderTells(env, cs, g, k) && DataTell(env, cs, g, k))
  }

  // ---------------------------------------------------------------- what becomes of a chunk

  /** Every block header that interrupts the header or the data of chunk `k` is valid. */
  ghost predicate PathIsClear(env: Env, cs: seq<ChunkDesc>, g: Bytes, k: nat)
    requires k < |cs|
  {
    forall q | Start(cs, k) <= q < DataEnd(Start(cs, k), cs[k]) && IsBlockBoundary(q) :: ValidBlockHeaderAt(env.h, g, q)
  }

  datatype Fate = Intact | DataLost | Unreadable

  ghost function FateOf(env: Env, cs: seq<ChunkDesc>, g: Bytes, k: nat): Fate
    requires k < |cs| && ReadEnd(Start(cs, k), CHUNK_HEADER_SIZE) <= |g|
    requires ReadEnd(Start(cs, k), CHUNK_HEADER_SIZE + |cs[k].data|) <= |g|
  {
    if !PathIsClear(env, cs, g, k) || !HeaderIn(cs, g, k).IsHeaderValid(env.h) then Unreadable
    else if DataHashHolds(env, cs, g, k) then Intact
    else DataLost
  }

  /** Where the parts of chunk `k` are. */
  lemma FrameOf(env: Env, cs: seq<ChunkDesc>, g: Bytes, k: nat)
    requires k < |cs| && |g| == Start(cs, |cs|)
    ensures var b, c := Start(cs, k), cs[k];
      && IsPossibleChunkBoundary(b) && CanonicalChunkAddress(b) == b
      && End(b, c) == Start(cs, k + 1) <= |g| && DataEnd(b, c) <= End(b, c) && b < DataEnd(b, c)
      && ReadEnd(b, CHUNK_HEADER_SIZE) <= DataEnd(b, c) == ReadEnd(b, CHUNK_HEADER_SIZE + |c.data|)
      && b + |c.records| <= |g|
      && b < ReadEnd(b, CHUNK_HEADER_SIZE) && ReadEnd(b, CHUNK_HEADER_SIZE) + |c.data| <= DataEnd(b, c)
  {
    var b, c := Start(cs, k), cs[k];
    EndFacts(b, c);
    CanonicalFacts(b);
    StartMonotone(cs, k + 1, |cs|);
    ReadsUsableBytes(b, CHUNK_HEADER_SIZE);
    ReadsUsableBytes(b, CHUNK_HEADER_SIZE + |c.data|);
    ReadEndMonotone(b, CHUNK_HEADER_SIZE, CHUNK_HEADER_SIZE + |c.data|);
  }

  /** A valid block header of the damaged file still gives both ends of its chunk. */
  lemma ValidBoundaryAgrees(env: Env, cs: seq<ChunkDesc>, g: Bytes, i: nat, q: nat)
    requires Detectable(env, cs, g) && i < |cs|
    requires IsBlockBoundary(q) && Start(cs, i) <= q < Start(cs, i + 1) && ValidBlockHeaderAt(env.h, g, q)
    ensures Agrees(env.h, g, q, Start(cs, i), Start(cs, i + 1))
  {
    hide WellFormedFile, FileImage, Start, End, IsPossibleChunkBoundary, PreambleIsIntact, IsBlockBoundary, HeaderTells,
         DataTell;
    BoundaryAgrees(env, cs, i, q);
    assert BlockHeaderTells(env, cs, g, q);
  }

  lemma ClearPathAgrees(env: Env, cs: seq<ChunkDesc>, g: Bytes, k: nat)
    requires Detectable(env, cs, g) && k < |cs| && PathIsClear(env, cs, g, k)
    ensures forall q | Start(cs, k) <= q < DataEnd(Start(cs, k), cs[k]) && IsBlockBoundary(q) ::
      Agrees(env.h, g, q, Start(cs, k), Start(cs, k + 1))
  {
    FrameOf(env, cs, g, k);
    hide Detectable, Start, End, DataEnd, Agrees, IsPossibleChunkBoundary, IsBlockBoundary, ReadEnd,
         CanonicalChunkAddress;
    forall q | Start(cs, k) <= q < DataEnd(Start(cs, k), cs[k]) && IsBlockBoundary(q)
      ensures Agrees(env.h, g, q, Start(cs, k), Start(cs, k + 1))
    {
      ValidBoundaryAgrees(env, cs, g, k, q);
    }
  }

  lemma ChunkIsWellFormed(env: Env, cs: seq<ChunkDesc>, g: Bytes, k: nat)
    requires Detectable(env, cs, g) && k < |cs|
    ensures WellFormed(env, cs[k]) && |cs[k].data| < TWO_64 && |cs[k].records| < CH.TWO_56 && cs[k].decodedSize < TWO_64
  {
    hide PreambleIsIntact, BlockHeaderTells, HeaderTells, DataTell;
    Reading.ChunkIsStoredSoFar(env, cs, FileImage(env.h, cs), k);
    StoredIsSized(env, FileImage(env.h, cs), Start(cs, k), cs[k]);
  }

  lemma ValidHeaderIsWritten(env: Env, cs: seq<ChunkDesc>, g: Bytes, k: nat)
    requires Detectable(env, cs, g) && 0 < k < |cs|
    requires ReadEnd(Start(cs, k), CHUNK_HEADER_SIZE) <= |g| && HeaderIn(cs, g, k).IsHeaderValid(env.h)
    ensures HeaderReadFrom(g, Start(cs, k)) == HeaderOf(env.h, cs[k])
  {
    hide Start, ReadEnd, HeaderReadFrom, HeaderOf, WellFormedFile, PreambleIsIntact;
    assert HeaderTells(env, cs, g, k);
  }

  /** The header of chunk `k` is valid, and so is the block header that interrupts it, if one does. */
  ghost predicate HeaderIsClear(env: Env, cs: seq<ChunkDesc>, g: Bytes, k: nat)
    requires k < |cs| && ReadEnd(Start(cs, k), CHUNK_HEADER_SIZE) <= |g|
  {
    var b := Start(cs, k);
    && HeaderIn(cs, g, k).IsHeaderValid(env.h)
    && (NextBlockBoundary(b) < ReadEnd(b, CHUNK_HEADER_SIZE) ==> ValidBlockHeaderAt(env.h, g, NextBlockBoundary(b)))
  }

  /** Then the header is read, and it is the one written. */
  lemma HeaderReads(env: Env, cs: seq<ChunkDesc>, g: Bytes, k: nat)
    requires Detectable(env, cs, g) && 0 < k < |cs|
    requires ReadEnd(Start(cs, k), CHUNK_HEADER_SIZE) <= |g| && HeaderIsClear(env, cs, g, k)
    ensures ReadHeaderAt(env.h, g, Start(cs, k))
      == HeaderOk(HeaderOf(env.h, cs[k]), Start(cs, k), ReadEnd(Start(cs, k), CHUNK_HEADER_SIZE))
  {
    hide Detectable, PathIsClear, Agrees, PointsBack, HeaderOf, HeaderReadFrom, ReadEnd, ReadBytes, End, ChunkEnd,
         DataEnd, Start, WellFormed, IsPossibleChunkBoundary, CanonicalChunkAddress, NextBlockBoundary,
         IsBlockBoundary, ValidBlockHeaderAt, Rank, Phys, Advance;
    var b, c := Start(cs, k), cs[k];
    LengthOfDamaged(env, cs, g);
    FrameOf(env, cs, g, k);
    ChunkIsWellFormed(env, cs, g, k);
    EndIsChunkEnd(b, c);
    ValidHeaderIsWritten(env, cs, g, k);
    WrittenHeaderFields(env.h, c);
    NextBoundaryFacts(b);
    var q := NextBlockBoundary(b);
    if q < ReadEnd(b, CHUNK_HEADER_SIZE) {
      ValidBoundaryAgrees(env, cs, g, k, q);
      AgreesPointsBack(env.h, g, q, b, End(b, c));
    }
  }

  lemma ClearPathClearsHeader(env: Env, cs: seq<ChunkDesc>, g: Bytes, k: nat)
    requires |g| == Start(cs, |cs|) && k < |cs| && PathIsClear(env, cs, g, k)
    requires ReadEnd(Start(cs, k), CHUNK_HEADER_SIZE) <= |g| && HeaderIn(cs, g, k).IsHeaderValid(env.h)
    ensures HeaderIsClear(env, cs, g, k)
  {
    FrameOf(env, cs, g, k);
    hide Start, End, DataEnd, ReadEnd, HeaderReadFrom, ValidBlockHeaderAt, IsPossibleChunkBoundary;
    NextBoundaryFacts(Start(cs, k));
  }

  lemma DataReads(env: Env, cs: seq<ChunkDesc>, g: Bytes, k: nat)
    requires Detectable(env, cs, g) && k < |cs| && PathIsClear(env, cs, g, k)
    requires ReadEnd(Start(cs, k), CHUNK_HEADER_SIZE + |cs[k].data|) <= |g|
    ensures ReadDataAt(env.h, g, Start(cs, k), Start(cs, k + 1), |cs[k].data|) == Some(DataIn(cs, g, k))
  {
    FrameOf(env, cs, g, k);
    ClearPathAgrees(env, cs, g, k);
    ReadEndMonotone(Start(cs, k), 0, CHUNK_HEADER_SIZE);
    hide Detectable, Agrees, ReadPos, ReadBytes, End, DataEnd, Start, IsPossibleChunkBoundary, IsBlockBoundary;
  }

  /** A chunk whose path is clear and whose header is valid parses, or fails with its extent trusted. */
  lemma ReadableParses(env: Env, cs: seq<ChunkDesc>, g: Bytes, k: nat)
    requires Detectable(env, cs, g) && 0 < k < |cs| && PathIsClear(env, cs, g, k)
    requires ReadEnd(Start(cs, k), CHUNK_HEADER_SIZE) <= |g| && HeaderIn(cs, g, k).IsHeaderValid(env.h)
    requires ReadEnd(Start(cs, k), CHUNK_HEADER_SIZE + |cs[k].data|) <= |g|
    ensures ParseChunkAt(env, g, Start(cs, k)) ==
      if DataHashHolds(env, cs, g, k) then Expected(Start(cs, k), cs[k])
      else ParseTrusted(Start(cs, k), Start(cs, k + 1), false)
    ensures !IsDataChunk(cs[k]) ==> cs[k].records == []
  {
    var b, c := Start(cs, k), cs[k];
    ClearPathClearsHeader(env, cs, g, k);
    HeaderReads(env, cs, g, k);
    DataReads(env, cs, g, k);
    ChunkIsWellFormed(env, cs, g, k);
    assert DataTell(env, cs, g, k);
    EndIsChunkEnd(b, c);
    Reading.ChunkEndIsNextStart(cs, k);
    WellFormedClassifies(env, b, c);
    hide Detectable, PathIsClear, ReadHeaderAt, ReadDataAt, ReadEnd, DataIn, End, ChunkEnd, DataEnd, Start, WellFormed,
         IsPossibleChunkBoundary, Expected;
    WrittenHeaderFields(env.h, c);
  }

  /** A chunk with an invalid header, or a broken block header in its way, fails and its extent is not trusted. */
  lemma UnreadableParses(env: Env, cs: seq<ChunkDesc>, g: Bytes, k: nat)
    requires Detectable(env, cs, g) && 0 < k < |cs|
    requires ReadEnd(Start(cs, k), CHUNK_HEADER_SIZE) <= |g|
    requires !PathIsClear(env, cs, g, k) || !HeaderIn(cs, g, k).IsHeaderValid(env.h)
    ensures ParseChunkAt(env, g, Start(cs, k)) == ParseUntrusted
  {
    var b, c := Start(cs, k), cs[k];
    FrameOf(env, cs, g, k);
    HeaderFields(env.h, g, b);
    var r := ReadHeaderAt(env.h, g, b);
    if r.HeaderOk? && r.ch.IsHeaderValid(env.h) {
      assert HeaderTells(env, cs, g, k);
      var q :| b <= q < DataEnd(b, c) && IsBlockBoundary(q) && !ValidBlockHeaderAt(env.h, g, q);
      BrokenPath(env, cs, g, k, q);
    }
    hide Detectable, PathIsClear, ReadHeaderAt, ReadDataAt, ReadEnd, End, ChunkEnd, DataEnd, Start,
         IsPossibleChunkBoundary,
         CanonicalChunkAddress, HeaderTells, IsBlockBoundary;
  }

  lemma HeaderFields(h: Hash, g: Bytes, b: nat)
    requires CanonicalChunkAddress(b) == b < |g|
    ensures var r := ReadHeaderAt(h, g, b);
      && r != HeaderEof
      && (r.HeaderOk? ==> r.chunkBegin == b && ReadEnd(b, CHUNK_HEADER_SIZE) <= |g| && r.ch == HeaderReadFrom(g, b))
      && (r.HeaderOk? && NextBlockBoundary(b) < ReadEnd(b, CHUNK_HEADER_SIZE) ==>
            ValidBlockHeaderAt(h, g, NextBlockBoundary(b)))
  {
    hide ReadEnd, ReadBytes, NextBlockBoundary, CanonicalChunkAddress;
  }

  /** Behind a valid header, a broken block header stops the reading of the data. */
  lemma BrokenPath(env: Env, cs: seq<ChunkDesc>, g: Bytes, k: nat, q: nat)
    requires Detectable(env, cs, g) && 0 < k < |cs|
    requires var r := ReadHeaderAt(env.h, g, Start(cs, k)); r.HeaderOk? && r.ch == HeaderOf(env.h, cs[k])
    requires Start(cs, k) <= q < DataEnd(Start(cs, k), cs[k]) && IsBlockBoundary(q) && !ValidBlockHeaderAt(env.h, g, q)
    ensures ReadDataAt(env.h, g, Start(cs, k), ChunkEnd(Start(cs, k), |cs[k].data|, |cs[k].records|), |cs[k].data|)
      == None
    ensures HeaderOf(env.h, cs[k]).dataSize == |cs[k].data| && HeaderOf(env.h, cs[k]).NumRecords() == |cs[k].records|
  {
    var b, c := Start(cs, k), cs[k];
    FrameOf(env, cs, g, k);
    ChunkIsWellFormed(env, cs, g, k);
    WrittenHeaderFields(env.h, c);
    HeaderFields(env.h, g, b);
    hide Detectable, ReadHeaderAt, ReadDataAt, ReadEnd, ReadBytes, End, ChunkEnd, DataEnd, Start,
         IsPossibleChunkBoundary,
         CanonicalChunkAddress, NextBlockBoundary, IsBlockBoundary, ValidBlockHeaderAt, WellFormed, HeaderOf;
    if q < ReadEnd(b, CHUNK_HEADER_SIZE) {
      OneBoundaryInHeader(b, q);
    }
    DataBlocked(env.h, g, b, ChunkEnd(b, |c.data|, |c.records|), |c.data|, q);
  }

  lemma DataBlocked(h: Hash, g: Bytes, b: nat, e: nat, n: nat, q: nat)
    requires ReadEnd(b, CHUNK_HEADER_SIZE) <= q < ReadEnd(b, CHUNK_HEADER_SIZE + n)
    requires IsBlockBoundary(q) && !ValidBlockHeaderAt(h, g, q)
    ensures ReadDataAt(h, g, b, e, n) == None
  {
    hide ReadEnd, ReadBytes, IsBlockBoundary, ValidBlockHeaderAt;
  }

  lemma OneBoundaryInHeader(b: nat, q: nat)
    requires b <= q < ReadEnd(b, CHUNK_HEADER_SIZE) && IsBlockBoundary(q)
    ensures q == NextBlockBoundary(b)
  {
  }

  // ---------------------------------------------------------------- resynchronising

  /** The first boundary at or after `q` whose block header is valid, or one behind the end of the file. */
  ghost function NextIntact(h: Hash, g: Bytes, q: nat): (r: nat)
    requires IsBlockBoundary(q)
    ensures q <= r && IsBlockBoundary(r)
    decreases if q <= |g| then |g| - q else 0
  {
    if q >= |g| || ValidBlockHeaderAt(h, g, q) then q
    else
      BoundaryStep(q);
      NextIntact(h, g, q + BLOCK_SIZE)
  }

  /** The first chunk from number `i` on that starts at or after `q`. */
  function FirstChunkFrom(cs: seq<ChunkDesc>, i: nat, q: nat): (r: nat)
    requires i <= |cs|
    ensures i <= r <= |cs|
    decreases |cs| - i
  {
    if i == |cs| || q <= Start(cs, i) then i else FirstChunkFrom(cs, i + 1, q)
  }

  lemma {:induction false} FirstChunkFound(cs: seq<ChunkDesc>, i: nat, q: nat, m: nat)
    requires 0 < i <= m <= |cs| && FirstChunkAt(cs, q, m)
    ensures FirstChunkFrom(cs, i, q) == m
    decreases m - i
  {
    hide Start;
    if i < m {
      StartMonotone(cs, i, m - 1);
      FirstChunkFound(cs, i + 1, q, m);
    }
  }

  /** Following block headers from a boundary leads to the first chunk at or after the next valid one. */
  lemma {:induction false} ResyncFindsSurvivor(env: Env, cs: seq<ChunkDesc>, g: Bytes, k: nat, q: nat)
    requires Detectable(env, cs, g) && k < |cs| && IsBlockBoundary(q) && Start(cs, k) < q
    ensures Min(Resync(env.h, g, |g|, q), |g|) == Start(cs, FirstChunkFrom(cs, k + 1, NextIntact(env.h, g, q)))
    decreases if q <= |g| then |g| - q else 0
  {
    hide Start, End, FirstChunkAt, FirstChunkFrom, IsPossibleChunkBoundary;
    BoundaryStep(q);
    if q >= |g| {
      NoChunkBehind(cs, g, k, q);
      hide Detectable;
    } else {
      HeaderFits(|g|, q);
      if ValidBlockHeaderAt(env.h, g, q) {
        ResyncAtValid(env, cs, g, k, q);
      } else {
        ResyncFindsSurvivor(env, cs, g, k, q + BLOCK_SIZE);
      }
    }
  }

  lemma NoChunkBehind(cs: seq<ChunkDesc>, g: Bytes, k: nat, q: nat)
    requires |g| == Start(cs, |cs|) && k < |cs| && |g| <= q
    ensures FirstChunkFrom(cs, k + 1, q) == |cs|
  {
    hide FirstChunkFrom;
    StartMonotone(cs, |cs| - 1, |cs|);
    hide Start;
    FirstChunkFound(cs, k + 1, q, |cs|);
  }

  /** A file does not end inside a block header. */
  lemma HeaderFits(len: nat, q: nat)
    requires IsPossibleChunkBoundary(len) && IsBlockBoundary(q) && q < len
    ensures q + BLOCK_HEADER_SIZE < len
  {
    var a, d := q / BLOCK_SIZE, len / BLOCK_SIZE;
    assert q == BLOCK_SIZE * a && len == BLOCK_SIZE * d + len % BLOCK_SIZE && a <= d;
    if a == d {
      assert RemainingInBlock(len) == BLOCK_SIZE - len % BLOCK_SIZE;
    }
  }

  lemma ResyncAtValid(env: Env, cs: seq<ChunkDesc>, g: Bytes, k: nat, q: nat)
    requires Detectable(env, cs, g) && k < |cs| && IsBlockBoundary(q) && Start(cs, k) < q < |g|
    requires ValidBlockHeaderAt(env.h, g, q)
    ensures Min(Resync(env.h, g, |g|, q), |g|) == Start(cs, FirstChunkFrom(cs, k + 1, q))
  {
    hide Detectable, Start, End, FirstChunkFrom, FirstChunkAt, IsBlockBoundary, IsPossibleChunkBoundary,
         ValidBlockHeaderAt, Resync, Agrees;
    LengthOfDamaged(env, cs, g);
    var i := FindCovering(cs, |cs|, q);
    ValidBoundaryAgrees(env, cs, g, i, q);
    StartMonotone(cs, i + 1, |cs|);
    ResyncStep(env.h, g, q, Start(cs, i), Start(cs, i + 1));
    FirstBehindCover(cs, k, i, q);
    FirstChunkFound(cs, k + 1, q, if Start(cs, i) == q then i else i + 1);
  }

  /** The first chunk at or after a position is the one that starts there, or the one after that which covers it. */
  lemma FirstBehindCover(cs: seq<ChunkDesc>, k: nat, i: nat, q: nat)
    requires k < |cs| && i < |cs| && Start(cs, k) < q && Start(cs, i) <= q < Start(cs, i + 1)
    ensures var m := if Start(cs, i) == q then i else i + 1;
      k < m && FirstChunkAt(cs, q, m)
  {
    hide Start;
    OrderOfStarts(cs, k, i, q);
    if Start(cs, i) == q {
      StartMonotone(cs, i - 1, i);
    }
  }

  // ---------------------------------------------------------------- what survives

  /** The chunk a reader goes on with after failing at chunk `k` without trusting its extent. */
  ghost function ResumesAt(env: Env, cs: seq<ChunkDesc>, g: Bytes, k: nat): (m: nat)
    requires k < |cs|
    ensures k < m <= |cs|
  {
    FirstChunkFrom(cs, k + 1, NextIntact(env.h, g, BoundaryAfter(Start(cs, k))))
  }

  /**
   The records that can be read from chunk `k` on and the regions that are lost. Damaged data
   lose their chunk; an unreadable chunk loses everything up to the first chunk at or after the
   next intact block boundary.
   */
  ghost function Survivors(env: Env, cs: seq<ChunkDesc>, g: Bytes, k: nat): (seq<Bytes>, seq<Region>)
    requires k <= |cs| && |g| == Start(cs, |cs|)
    decreases |cs| - k
  {
    if k == |cs| then ([], [])
    else
      FrameOf(env, cs, g, k);
      match FateOf(env, cs, g, k)
      case Intact =>
        var rest := Survivors(env, cs, g, k + 1);
        (cs[k].records + rest.0, rest.1)
      case DataLost =>
        var rest := Survivors(env, cs, g, k + 1);
        (rest.0, [Region(Start(cs, k), Start(cs, k + 1))] + rest.1)
      case Unreadable =>
        var m := ResumesAt(env, cs, g, k);
        var rest := Survivors(env, cs, g, m);
        (rest.0, [Region(Start(cs, k), Start(cs, m))] + rest.1)
  }

  /** Draining the damaged file from any chunk delivers exactly the survivors and reports exactly the losses. */
  lemma {:induction false} DrainsSurvivors(env: Env, cs: seq<ChunkDesc>, g: Bytes, k: nat, prev: Option<nat>)
    requires Detectable(env, cs, g) && 0 < k <= |cs|
    ensures DrainFrom(env, g, Start(cs, k), prev) == Survivors(env, cs, g, k)
    decreases |cs| - k
  {
    hide DrainFrom, ParseChunkAt, Detectable, Start, End, ReadEnd, DataEnd, RegionFor,
         IsPossibleChunkBoundary, FateOf, PathIsClear,
         DataHashHolds, ResumesAt, IsDataChunk;
    LengthOfDamaged(env, cs, g);
    if k == |cs| {
      DrainAtEnd(env, cs, g, prev);
    } else {
      FrameOf(env, cs, g, k);
      DrainStep(env, g, Start(cs, k), prev);
      FateParses(env, cs, g, k);
      match FateOf(env, cs, g, k) {
        case Intact =>
          DrainsSurvivors(env, cs, g, k + 1, prev);
          var rest := Survivors(env, cs, g, k + 1);
          assert cs[k].records == [] ==> cs[k].records + rest.0 == rest.0;
        case DataLost =>
          StartMonotone(cs, k, k + 1);
          TrustedRegion(env.h, g, Start(cs, k), Start(cs, k + 1), prev);
          DrainsSurvivors(env, cs, g, k + 1, Some(Start(cs, k + 1)));
        case Unreadable =>
          var m := ResumesAt(env, cs, g, k);
          LossEndsAt(env, cs, g, k, prev);
          DrainsSurvivors(env, cs, g, m, Some(Start(cs, m)));
      }
    }
  }

  lemma LengthOfDamaged(env: Env, cs: seq<ChunkDesc>, g: Bytes)
    requires Detectable(env, cs, g)
    ensures |g| == Start(cs, |cs|) < TWO_64
  {
  }

  lemma FateParses(env: Env, cs: seq<ChunkDesc>, g: Bytes, k: nat)
    requires Detectable(env, cs, g) && 0 < k < |cs|
    requires ReadEnd(Start(cs, k), CHUNK_HEADER_SIZE) <= |g|
    requires ReadEnd(Start(cs, k), CHUNK_HEADER_SIZE + |cs[k].data|) <= |g|
    ensures ParseChunkAt(env, g, Start(cs, k)) ==
      match FateOf(env, cs, g, k)
      case Intact => Expected(Start(cs, k), cs[k])
      case DataLost => ParseTrusted(Start(cs, k), Start(cs, k + 1), false)
      case Unreadable => ParseUntrusted
    ensures FateOf(env, cs, g, k) == Intact && !IsDataChunk(cs[k]) ==> cs[k].records == []
  {
    hide Detectable, PathIsClear, ParseChunkAt, Start, End, ReadEnd, DataEnd, IsPossibleChunkBoundary, DataHashHolds;
    if PathIsClear(env, cs, g, k) && HeaderIn(cs, g, k).IsHeaderValid(env.h) {
      ReadableParses(env, cs, g, k);
    } else {
      UnreadableParses(env, cs, g, k);
    }
  }

  lemma LossEndsAt(env: Env, cs: seq<ChunkDesc>, g: Bytes, k: nat, prev: Option<nat>)
    requires Detectable(env, cs, g) && k < |cs|
    ensures var b, e := Start(cs, k), Start(cs, ResumesAt(env, cs, g, k));
      RegionFor(env.h, g, |g|, b, None, prev) == Region(b, e)
  {
    hide Start, End, Resync, RegionFor, FirstChunkFrom, NextIntact, IsPossibleChunkBoundary;
    LengthOfDamaged(env, cs, g);
    var m := ResumesAt(env, cs, g, k);
    ResyncFindsSurvivor(env, cs, g, k, BoundaryAfter(Start(cs, k)));
    hide Detectable;
    StartMonotone(cs, k, m);
    StartMonotone(cs, m, |cs|);
    UntrustedRegion(env.h, g, Start(cs, k), Start(cs, m), prev);
  }

  /**
   However a file is damaged behind its preamble, as long as every damaged piece fails its own
   hash: reading it to the end delivers the survivors, in order, and reports the losses.
   */
  lemma DamageLosesOnlyWhatItHits(env: Env, cb: Callback, cs: seq<ChunkDesc>, g: Bytes, n: nat)
    requires Detectable(env, cs, g)
    requires var (records, regions) := Survivors(env, cs, g, 1); n == |records| + |regions| + 1
    ensures Open(env.h, Some(cb), g) == Some(Initial(g))
    ensures var (s, rs) := Run(env, Some(cb), g, Initial(g), n);
      var (records, regions) := Survivors(env, cs, g, 1);
      |rs| == n && rs[n - 1].EndOfFile? && Delivered(rs) == records && s.log == regions
  {
    SignatureEnds(cs);
    hide Start, Run, Delivered, DrainFrom, Survivors, Open, PreambleIsIntact, IsPossibleChunkBoundary;
    DrainsSurvivors(env, cs, g, 1, None);
    var (records, regions) := Survivors(env, cs, g, 1);
    FromFresh(env, cb, g, records, regions, n);
  }
}
