/**
 What is lost when one chunk of an otherwise intact file is damaged: exactly that chunk if
 only its data are bad, and everything up to the first chunk at or after the next block
 boundary if its header is.
 */
module Damage {
  import opened Bytes
  import opened BlockArithmetic
  import opened ChunkParsing
  import opened Layout
  import opened StoredChunks
  import opened Files
  import opened ReaderSpec
  import opened Recovery
  import Reading
  import CH = ChunkHeaders

  // ---------------------------------------------------------------- draining chunk by chunk

  lemma DrainStep(env: Env, f: Bytes, pos: nat, prev: Option<nat>)
    ensures var p, d := ParseChunkAt(env, f, pos), DrainFrom(env, f, pos, prev);
      && (p.ParseEof? ==> d == ([], []))
      && (p.ParseSkip? ==> d == DrainFrom(env, f, p.e, prev))
      && (p.ParseData? ==>
            d == (p.records + DrainFrom(env, f, p.e, prev).0, DrainFrom(env, f, p.e, prev).1))
      && (p.ParseUntrusted? ==>
            var region := RegionFor(env.h, f, |f|, pos, None, prev);
            d == (DrainFrom(env, f, region.end, Some(region.end)).0,
                  [region] + DrainFrom(env, f, region.end, Some(region.end)).1))
      && (p.ParseTrusted? ==>
            var region := RegionFor(env.h, f, |f|, p.b, Some(p.e), prev);
            d == (DrainFrom(env, f, region.end, Some(region.end)).0,
                  [region] + DrainFrom(env, f, region.end, Some(region.end)).1))
  {
    hide ParseChunkAt, RegionFor, Gap;
    assert LoadFrom(env, f, pos) == match ParseChunkAt(env, f, pos)
      case ParseEof => LoadEof(pos)
      case ParseUntrusted => LoadFailed(pos, None)
      case ParseTrusted(b, e, _) => LoadFailed(b, Some(e))
      case ParseSkip(_, e) => LoadFrom(env, f, e)
      case ParseData(b, e, records) => Loaded(b, e, records);
    hide LoadFrom;
  }

  /** Chunk `j` can still be read from `g`. */
  ghost predicate ChunkIntact(env: Env, cs: seq<ChunkDesc>, g: Bytes, j: nat)
    requires j < |cs|
  {
    StoredSoFar(env.h, g, Start(cs, j), cs[j]) && WellFormed(env, cs[j])
  }

  /** The records of chunks `i` to `j`. */
  function RecordsBetween(cs: seq<ChunkDesc>, i: nat, j: nat): seq<Bytes>
    requires i <= j <= |cs|
    decreases j - i
  {
    if i == j then [] else cs[i].records + RecordsBetween(cs, i + 1, j)
  }

  lemma {:induction false} RecordsSplit(cs: seq<ChunkDesc>, i: nat, j: nat)
    requires i <= j <= |cs|
    ensures RecordsFrom(cs, i) == RecordsBetween(cs, i, j) + RecordsFrom(cs, j)
    decreases j - i
  {
    if i < j {
      RecordsSplit(cs, i + 1, j);
    }
  }

  lemma IntactChunkParses(env: Env, cs: seq<ChunkDesc>, g: Bytes, i: nat)
    requires i < |cs| && |g| == Start(cs, |cs|) && ChunkIntact(env, cs, g, i)
    ensures ParseChunkAt(env, g, Start(cs, i)) == Expected(Start(cs, i), cs[i])
    ensures End(Start(cs, i), cs[i]) == Start(cs, i + 1)
    ensures !IsDataChunk(cs[i]) ==> cs[i].records == []
  {
    var b, c := Start(cs, i), cs[i];
    EndFacts(b, c);
    StartMonotone(cs, i + 1, |cs|);
    StoredChunkParses(env, g, b, c);
    StoredIsSized(env, g, b, c);
    hide StoredSoFar, WellFormed, ParseChunkAt, DataEnd;
    WellFormedClassifies(env, b, c);
  }

  /** Draining over intact chunks delivers their records and goes on behind them. */
  lemma {:induction false} DrainOverIntact(env: Env, cs: seq<ChunkDesc>, g: Bytes, i: nat, j: nat, prev: Option<nat>)
    requires i <= j <= |cs| && |g| == Start(cs, |cs|)
    requires forall k | i <= k < j :: ChunkIntact(env, cs, g, k)
    ensures var d := DrainFrom(env, g, Start(cs, j), prev);
      DrainFrom(env, g, Start(cs, i), prev) == (RecordsBetween(cs, i, j) + d.0, d.1)
    decreases j - i
  {
    hide DrainFrom, ParseChunkAt, ChunkIntact, End, IsPossibleChunkBoundary, IsDataChunk, RegionFor;
    if i < j {
      IntactChunkParses(env, cs, g, i);
      DrainStep(env, g, Start(cs, i), prev);
      DrainOverIntact(env, cs, g, i + 1, j, prev);
      var d, d' := DrainFrom(env, g, Start(cs, j), prev), DrainFrom(env, g, Start(cs, i + 1), prev);
      assert cs[i].records == [] ==> cs[i].records + d'.0 == d'.0;
      assert DrainFrom(env, g, Start(cs, i), prev) == (cs[i].records + d'.0, d'.1);
      assert RecordsBetween(cs, i, j) == cs[i].records + RecordsBetween(cs, i + 1, j);
      assert RecordsBetween(cs, i, j) + d.0 == cs[i].records + (RecordsBetween(cs, i + 1, j) + d.0);
    } else {
      var d := DrainFrom(env, g, Start(cs, j), prev);
      assert [] + d.0 == d.0;
    }
  }

  lemma DrainAtEnd(env: Env, cs: seq<ChunkDesc>, g: Bytes, prev: Option<nat>)
    requires |g| == Start(cs, |cs|)
    ensures DrainFrom(env, g, Start(cs, |cs|), prev) == ([], [])
  {
    hide DrainFrom, ParseChunkAt, IsPossibleChunkBoundary;
    ParseExtent(env, g, Start(cs, |cs|));
    CanonicalFacts(Start(cs, |cs|));
    DrainStep(env, g, Start(cs, |cs|), prev);
  }

  lemma DrainIntactTail(env: Env, cs: seq<ChunkDesc>, g: Bytes, i: nat, prev: Option<nat>)
    requires i <= |cs| && |g| == Start(cs, |cs|)
    requires forall k | i <= k < |cs| :: ChunkIntact(env, cs, g, k)
    ensures DrainFrom(env, g, Start(cs, i), prev) == (RecordsFrom(cs, i), [])
  {
    hide DrainFrom, ChunkIntact;
    DrainOverIntact(env, cs, g, i, |cs|, prev);
    DrainAtEnd(env, cs, g, prev);
    RecordsSplit(cs, i, |cs|);
  }

  // ---------------------------------------------------------------- damaged files

  /** `g` is the file with bytes changed inside chunk `k` only, and no block header touched. */
  ghost predicate DamagedIn(env: Env, cs: seq<ChunkDesc>, g: Bytes, k: nat) {
    && WellFormedFile(env, cs) && Start(cs, |cs|) < TWO_64 && 0 < k < |cs|
    && |g| == Start(cs, |cs|)
    && (forall p | 0 <= p < |g| && !(Start(cs, k) <= p < Start(cs, k + 1)) :: g[p] == FileImage(env.h, cs)[p])
    && (forall p | 0 <= p < |g| && p % BLOCK_SIZE < BLOCK_HEADER_SIZE :: g[p] == FileImage(env.h, cs)[p])
  }

  lemma TransferStored(h: Hash, f: Bytes, g: Bytes, b: nat, c: ChunkDesc)
    requires StoredSoFar(h, f, b, c) && |f| == |g|
    requires forall p | b <= p < End(b, c) && p < |f| :: g[p] == f[p]
    ensures StoredSoFar(h, g, b, c)
  {
    EndFacts(b, c);
    hide End, ByteAt, IsPossibleChunkBoundary, DataEnd;
  }

  lemma OthersIntact(env: Env, cs: seq<ChunkDesc>, g: Bytes, k: nat, j: nat)
    requires DamagedIn(env, cs, g, k) && j < |cs| && j != k
    ensures ChunkIntact(env, cs, g, j)
  {
    hide WellFormed, StoredSoFar, IsPossibleChunkBoundary, End;
    var f := FileImage(env.h, cs);
    Reading.ChunkIsStoredSoFar(env, cs, f, j);
    assert |f| == |g|;
    hide FileImage;
    if j < k {
      StartMonotone(cs, j + 1, k);
    } else {
      StartMonotone(cs, k + 1, j);
    }
    TransferStored(env.h, f, g, Start(cs, j), cs[j]);
  }

  lemma SameBlockHeader(f: Bytes, g: Bytes, q: nat)
    requires |f| == |g| && IsBlockBoundary(q) && q + BLOCK_HEADER_SIZE <= |f|
    requires forall p | 0 <= p < |g| && p % BLOCK_SIZE < BLOCK_HEADER_SIZE :: g[p] == f[p]
    ensures g[q..q + BLOCK_HEADER_SIZE] == f[q..q + BLOCK_HEADER_SIZE]
  {
    var s, t := g[q..q + BLOCK_HEADER_SIZE], f[q..q + BLOCK_HEADER_SIZE];
    forall i | 0 <= i < BLOCK_HEADER_SIZE
      ensures s[i] == t[i]
    {
      assert (q + i) % BLOCK_SIZE < BLOCK_HEADER_SIZE;
    }
  }

  lemma BlockHeadersIntact(env: Env, cs: seq<ChunkDesc>, g: Bytes, k: nat, i: nat, q: nat)
    requires DamagedIn(env, cs, g, k) && i < |cs|
    requires IsBlockBoundary(q) && Start(cs, i) <= q < Start(cs, i + 1)
    ensures Agrees(env.h, g, q, Start(cs, i), Start(cs, i + 1))
  {
    hide WellFormedFile, Start, IsPossibleChunkBoundary, IsBlockBoundary;
    var f := FileImage(env.h, cs);
    BoundaryAgrees(env, cs, i, q);
    assert |f| == |g|;
    hide FileImage;
    SameBlockHeader(f, g, q);
  }

  /** Inside the damaged chunk every block header still gives its two ends. */
  lemma DamagedFrame(env: Env, cs: seq<ChunkDesc>, g: Bytes, k: nat)
    requires DamagedIn(env, cs, g, k)
    ensures var b, c := Start(cs, k), cs[k];
      && IsPossibleChunkBoundary(b) && CanonicalChunkAddress(b) == b
      && End(b, c) == Start(cs, k + 1) <= |g| && DataEnd(b, c) <= End(b, c) && b < |g|
      && ReadEnd(b, CHUNK_HEADER_SIZE) == Advance(b, CHUNK_HEADER_SIZE) <= DataEnd(b, c)
      && ReadEnd(b, CHUNK_HEADER_SIZE + |c.data|) == DataEnd(b, c)
      && b + |c.records| <= |g|
      && ReadEnd(b, CHUNK_HEADER_SIZE) + |c.data| <= DataEnd(b, c)
    ensures forall q | Start(cs, k) <= q < Start(cs, k + 1) && IsBlockBoundary(q) ::
      Agrees(env.h, g, q, Start(cs, k), Start(cs, k + 1))
  {
    var b, c := Start(cs, k), cs[k];
    EndFacts(b, c);
    CanonicalFacts(b);
    StartMonotone(cs, k + 1, |cs|);
    ReadsUsableBytes(b, CHUNK_HEADER_SIZE);
    ReadsUsableBytes(b, CHUNK_HEADER_SIZE + |c.data|);
    ReadEndMonotone(b, CHUNK_HEADER_SIZE, CHUNK_HEADER_SIZE + |c.data|);
    forall q | b <= q < Start(cs, k + 1) && IsBlockBoundary(q)
      ensures Agrees(env.h, g, q, b, Start(cs, k + 1))
    {
      BlockHeadersIntact(env, cs, g, k, k, q);
    }
  }

  /** The header of chunk `k` as `g` has it. */
  function HeaderIn(cs: seq<ChunkDesc>, g: Bytes, k: nat): CH.ChunkHeader
    requires k < |cs| && ReadEnd(Start(cs, k), CHUNK_HEADER_SIZE) <= |g|
  {
    HeaderReadFrom(g, Start(cs, k))
  }

  // ---------------------------------------------------------------- damaged data

  /** The data of chunk `k` no longer match the hash in its untouched header. */
  ghost predicate DataDamaged(env: Env, cs: seq<ChunkDesc>, g: Bytes, k: nat) {
    && DamagedIn(env, cs, g, k)
    && ReadEnd(Start(cs, k), CHUNK_HEADER_SIZE + |cs[k].data|) <= |g|
    && ReadEnd(Start(cs, k), CHUNK_HEADER_SIZE) <= |g|
    && HeaderIn(cs, g, k) == HeaderOf(env.h, cs[k])
    && env.h(ReadBytes(g, Start(cs, k), CHUNK_HEADER_SIZE, |cs[k].data|)) != env.h(cs[k].data)
  }

  lemma DamagedDataClaims(env: Env, cs: seq<ChunkDesc>, g: Bytes, k: nat)
    requires DataDamaged(env, cs, g, k)
    ensures var b, ch := Start(cs, k), HeaderOf(env.h, cs[k]);
      && CanonicalChunkAddress(b) == b < |g|
      && HeaderReadFrom(g, b) == ch
      && ClaimsHold(env.h, g, b, ch)
      && (NextBlockBoundary(b) < ReadEnd(b, CHUNK_HEADER_SIZE) ==> PointsBack(env.h, g, NextBlockBoundary(b), b))
  {
    var b, c := Start(cs, k), cs[k];
    DamagedFrame(env, cs, g, k);
    DamagedChunkIsWellFormed(env, cs, g, k);
    EndIsChunkEnd(b, c);
    WrittenHeaderFields(env.h, c);
    hide FileImage, DamagedIn, Agrees, PointsBack, HeaderOf, ReadEnd, ReadBytes, End, ChunkEnd, DataEnd, Start,
         WellFormed, IsPossibleChunkBoundary, CanonicalChunkAddress;
    var q := NextBlockBoundary(b);
    NextBoundaryFacts(b);
    hide NextBlockBoundary, IsBlockBoundary;
    if q < ReadEnd(b, CHUNK_HEADER_SIZE) {
      AgreesPointsBack(env.h, g, q, b, End(b, c));
    }
  }

  lemma DamagedDataHeaderReads(env: Env, cs: seq<ChunkDesc>, g: Bytes, k: nat)
    requires DataDamaged(env, cs, g, k)
    ensures ReadHeaderAt(env.h, g, Start(cs, k))
      == HeaderOk(HeaderOf(env.h, cs[k]), Start(cs, k), ReadEnd(Start(cs, k), CHUNK_HEADER_SIZE))
  {
    DamagedDataClaims(env, cs, g, k);
    hide DamagedIn, ClaimsHold, PointsBack, HeaderReadFrom, NextBlockBoundary, ReadEnd, ReadBytes, Start,
         CanonicalChunkAddress;
  }

  lemma DamagedDataReads(env: Env, cs: seq<ChunkDesc>, g: Bytes, k: nat)
    requires DataDamaged(env, cs, g, k)
    ensures var b, c := Start(cs, k), cs[k];
      ReadDataAt(env.h, g, b, End(b, c), |c.data|) == Some(ReadBytes(g, b, CHUNK_HEADER_SIZE, |c.data|))
  {
    DamagedFrame(env, cs, g, k);
    ReadEndMonotone(Start(cs, k), 0, CHUNK_HEADER_SIZE);
    hide FileImage, DamagedIn, Agrees, ReadPos, ReadBytes, End, DataEnd, Start, IsPossibleChunkBoundary,
         IsBlockBoundary;
  }

  lemma DamagedDataParse(env: Env, cs: seq<ChunkDesc>, g: Bytes, k: nat)
    requires DataDamaged(env, cs, g, k)
    ensures ParseChunkAt(env, g, Start(cs, k)) == ParseTrusted(Start(cs, k), Start(cs, k + 1), false)
  {
    var b, c := Start(cs, k), cs[k];
    DamagedDataHeaderReads(env, cs, g, k);
    DamagedDataReads(env, cs, g, k);
    DamagedChunkIsWellFormed(env, cs, g, k);
    EndIsChunkEnd(b, c);
    Reading.ChunkEndIsNextStart(cs, k);
    hide FileImage, DamagedIn, ReadHeaderAt, ReadDataAt, ReadEnd, ReadBytes, End, ChunkEnd, DataEnd, Start, WellFormed,
         IsPossibleChunkBoundary;
    WrittenHeaderFields(env.h, c);
  }

  lemma DamagedChunkIsWellFormed(env: Env, cs: seq<ChunkDesc>, g: Bytes, k: nat)
    requires DamagedIn(env, cs, g, k)
    ensures WellFormed(env, cs[k]) && |cs[k].data| < TWO_64 && |cs[k].records| < CH.TWO_56 && cs[k].decodedSize < TWO_64
  {
    Reading.ChunkIsStoredSoFar(env, cs, FileImage(env.h, cs), k);
    StoredIsSized(env, FileImage(env.h, cs), Start(cs, k), cs[k]);
  }

  lemma TrustedRegion(h: Hash, g: Bytes, b: nat, e: nat, prev: Option<nat>)
    requires IsPossibleChunkBoundary(b) && IsPossibleChunkBoundary(e) && b < e
    ensures RegionFor(h, g, |g|, b, Some(e), prev) == Region(b, e)
  {
    CanonicalFacts(b);
    CanonicalFacts(e);
  }

  /**
   A chunk with damaged data: draining the file delivers the records of all the other chunks,
   in order, and reports one region, the chunk's own extent.
   */
  lemma DamagedDataLosesItsChunk(env: Env, cb: Callback, cs: seq<ChunkDesc>, g: Bytes, k: nat, n: nat)
    requires DataDamaged(env, cs, g, k)
    requires n == |RecordsBetween(cs, 1, k)| + |RecordsFrom(cs, k + 1)| + 2
    ensures Open(env.h, Some(cb), g) == Some(Initial(g))
    ensures var (s, rs) := Run(env, Some(cb), g, Initial(g), n);
      && |rs| == n && rs[n - 1].EndOfFile?
      && Delivered(rs) == RecordsBetween(cs, 1, k) + RecordsFrom(cs, k + 1)
      && s.log == [Region(Start(cs, k), Start(cs, k + 1))]
  {
    hide Run, Delivered, DrainFrom, ParseChunkAt, RegionFor, RecordsFrom, RecordsBetween, Open, End, WellFormedFile,
         FileImage, ReadEnd, ReadBytes;
    DamagedDataParse(env, cs, g, k);
    DamagedPreamble(env, cs, g, k);
    StartMonotone(cs, k, k + 1);
    hide DataDamaged, DamagedIn;
    DrainStep(env, g, Start(cs, k), None);
    TrustedRegion(env.h, g, Start(cs, k), Start(cs, k + 1), None);
    DrainDamaged(env, cs, g, k, k + 1);
    hide Start, IsPossibleChunkBoundary;
    var regions := [Region(Start(cs, k), Start(cs, k + 1))];
    assert regions + [] == regions;
    FromFresh(env, cb, g, RecordsBetween(cs, 1, k) + RecordsFrom(cs, k + 1), regions, n);
  }

  /** The preamble is intact and reading starts at chunk 1. */
  lemma DamagedPreamble(env: Env, cs: seq<ChunkDesc>, g: Bytes, k: nat)
    requires DamagedIn(env, cs, g, k)
    ensures PreambleIsIntact(env.h, g) && Start(cs, 1) == FIRST_CHUNK
    ensures |g| == Start(cs, |cs|) && k < |cs|
  {
    hide WellFormedFile, IsPossibleChunkBoundary, End;
    var f := FileImage(env.h, cs);
    Reading.WholeFileIsLong(env, cs);
    Reading.PreambleOfFile(env, cs, f);
    StartMonotone(cs, 1, k);
    SamePreamble(env.h, f, g);
  }

  lemma SamePreamble(h: Hash, f: Bytes, g: Bytes)
    requires PreambleIsIntact(h, f) && |g| >= 64 && forall p | 0 <= p < 64 :: g[p] == f[p]
    ensures PreambleIsIntact(h, g)
  {
    assert g[0..24] == f[0..24];
    assert g[24..64] == f[24..64];
  }

  /** Draining up to the damaged chunk, and again from chunk `m` behind it. */
  lemma DrainDamaged(env: Env, cs: seq<ChunkDesc>, g: Bytes, k: nat, m: nat)
    requires DamagedIn(env, cs, g, k) && k < m <= |cs|
    ensures var d := DrainFrom(env, g, Start(cs, k), None);
      DrainFrom(env, g, Start(cs, 1), None) == (RecordsBetween(cs, 1, k) + d.0, d.1)
    ensures forall prev :: DrainFrom(env, g, Start(cs, m), prev) == (RecordsFrom(cs, m), [])
  {
    hide DrainFrom, ChunkIntact, End, WellFormedFile, FileImage, IsPossibleChunkBoundary;
    forall j | 0 <= j < |cs| && j != k
      ensures ChunkIntact(env, cs, g, j)
    {
      OthersIntact(env, cs, g, k, j);
    }
    DrainOverIntact(env, cs, g, 1, k, None);
    forall prev
      ensures DrainFrom(env, g, Start(cs, m), prev) == (RecordsFrom(cs, m), [])
    {
      DrainIntactTail(env, cs, g, m, prev);
    }
  }

  /** From what a drain from position 64 gives to what a run of calls gives. */
  lemma FromFresh(env: Env, cb: Callback, g: Bytes, records: seq<Bytes>, regions: seq<Region>, n: nat)
    requires PreambleIsIntact(env.h, g)
    requires DrainFrom(env, g, FIRST_CHUNK, None) == (records, regions)
    requires n == |records| + |regions| + 1
    ensures Open(env.h, Some(cb), g) == Some(Initial(g))
    ensures var (s, rs) := Run(env, Some(cb), g, Initial(g), n);
      |rs| == n && rs[n - 1].EndOfFile? && Delivered(rs) == records && s.log == regions
  {
    OpenIntact(env.h, Some(cb), g);
    hide Run, Delivered, DrainFrom, Open, PreambleIsIntact;
    var s := Initial(g);
    AllRemains(env, g, records, regions);
    hide RemainingRecords, RemainingRegions, Initial;
    DrainEnds(env, cb, g, s, n);
  }

  /** Before the first call everything remains. */
  lemma AllRemains(env: Env, g: Bytes, records: seq<Bytes>, regions: seq<Region>)
    requires DrainFrom(env, g, FIRST_CHUNK, None) == (records, regions)
    ensures RemainingRecords(env, g, Initial(g)) == records && RemainingRegions(env, g, Initial(g)) == regions
    ensures Initial(g).streamLen == |g| && Initial(g).log + regions == regions
  {
    hide DrainFrom;
    assert [] + records == records && [] + regions == regions;
  }

  // ---------------------------------------------------------------- damaged header

  /** The header of chunk `k` no longer matches its own hash. */
  ghost predicate HeaderDamaged(env: Env, cs: seq<ChunkDesc>, g: Bytes, k: nat) {
    && DamagedIn(env, cs, g, k)
    && ReadEnd(Start(cs, k), CHUNK_HEADER_SIZE) <= |g|
    && !HeaderIn(cs, g, k).IsHeaderValid(env.h)
  }

  lemma DamagedHeaderParse(env: Env, cs: seq<ChunkDesc>, g: Bytes, k: nat)
    requires HeaderDamaged(env, cs, g, k)
    ensures ParseChunkAt(env, g, Start(cs, k)) == ParseUntrusted
  {
    var b, c := Start(cs, k), cs[k];
    DamagedFrame(env, cs, g, k);
    hide FileImage, DamagedIn, Agrees, ReadEnd, ReadBytes, End, DataEnd, Start, IsPossibleChunkBoundary,
         CanonicalChunkAddress;
    var q := NextBlockBoundary(b);
    NextBoundaryFacts(b);
    hide NextBlockBoundary, IsBlockBoundary;
    if q < ReadEnd(b, CHUNK_HEADER_SIZE) {
      AgreesPointsBack(env.h, g, q, b, End(b, c));
    }
  }

  /** Chunk `m` is the first that starts at or after `q`; there may be none, and then `m` is the end of the file. */
  ghost predicate FirstChunkAt(cs: seq<ChunkDesc>, q: nat, m: nat) {
    0 < m <= |cs| && Start(cs, m - 1) < q && (m < |cs| ==> q <= Start(cs, m))
  }

  /** Following the block header at a boundary leads to the first chunk at or after it. */
  lemma ResyncFindsChunk(env: Env, cs: seq<ChunkDesc>, g: Bytes, k: nat, q: nat) returns (m: nat)
    requires DamagedIn(env, cs, g, k) && IsBlockBoundary(q) && Start(cs, k) < q
    ensures k < m <= |cs| && FirstChunkAt(cs, q, m)
    ensures Min(Resync(env.h, g, |g|, q), |g|) == Start(cs, m)
  {
    hide End, FileImage, WellFormedFile, IsPossibleChunkBoundary;
    if q >= |g| {
      m := |cs|;
      StartMonotone(cs, k, |cs| - 1);
      StartMonotone(cs, |cs| - 1, |cs|);
    } else {
      var i := FindCovering(cs, |cs|, q);
      BlockHeadersIntact(env, cs, g, k, i, q);
      StartMonotone(cs, i + 1, |cs|);
      ResyncStep(env.h, g, q, Start(cs, i), Start(cs, i + 1));
      m := if Start(cs, i) == q then i else i + 1;
      OrderOfStarts(cs, k, i, q);
      if Start(cs, i) == q {
        StartMonotone(cs, i - 1, i);
      }
    }
  }

  lemma OrderOfStarts(cs: seq<ChunkDesc>, k: nat, i: nat, q: nat)
    requires k < |cs| && i < |cs| && Start(cs, k) < q < Start(cs, i + 1) && Start(cs, i) <= q
    ensures k <= i && (Start(cs, i) == q ==> k < i)
  {
    hide IsPossibleChunkBoundary, End;
    if i < k {
      StartMonotone(cs, i + 1, k);
    }
  }

  lemma ResyncStep(h: Hash, g: Bytes, q: nat, b: nat, e: nat)
    requires IsBlockBoundary(q) && Agrees(h, g, q, b, e) && b <= q < e <= |g| && IsPossibleChunkBoundary(e)
    ensures Resync(h, g, |g|, q) == if b == q then q else e
  {
    hide IsPossibleChunkBoundary, IsBlockBoundary, NextBlockBoundary, BlockHeaderAt;
  }

  lemma UntrustedRegion(h: Hash, g: Bytes, b: nat, e: nat, prev: Option<nat>)
    requires IsPossibleChunkBoundary(b) && IsPossibleChunkBoundary(e) && b < e <= |g|
    requires Min(Resync(h, g, |g|, BoundaryAfter(b)), |g|) == e
    ensures RegionFor(h, g, |g|, b, None, prev) == Region(b, e)
  {
    CanonicalFacts(b);
    CanonicalFacts(e);
    hide Resync, IsPossibleChunkBoundary, CanonicalChunkAddress, BoundaryAfter;
  }

  /**
   A chunk with a damaged header: draining the file delivers the records of all the chunks
   before it and of all the chunks from the first one at or after the next block boundary
   strictly after its beginning, and reports one region, everything in between.
   */
  lemma DamagedHeaderLosesItsBlock(env: Env, cb: Callback, cs: seq<ChunkDesc>, g: Bytes, k: nat, m: nat, n: nat)
    requires HeaderDamaged(env, cs, g, k)
    requires FirstChunkAt(cs, BoundaryAfter(Start(cs, k)), m) && k < m
    requires n == |RecordsBetween(cs, 1, k)| + |RecordsFrom(cs, m)| + 2
    ensures Open(env.h, Some(cb), g) == Some(Initial(g))
    ensures var (s, rs) := Run(env, Some(cb), g, Initial(g), n);
      && |rs| == n && rs[n - 1].EndOfFile?
      && Delivered(rs) == RecordsBetween(cs, 1, k) + RecordsFrom(cs, m)
      && s.log == [Region(Start(cs, k), Start(cs, m))]
  {
    hide Run, Delivered, DrainFrom, RegionFor, RecordsFrom, RecordsBetween, Open, BoundaryAfter, FirstChunkAt,
         IsPossibleChunkBoundary;
    var m' := DrainDamagedHeader(env, cs, g, k);
    FirstChunkIsUnique(cs, BoundaryAfter(Start(cs, k)), m, m');
    hide HeaderDamaged, Start;
    var regions := [Region(Start(cs, k), Start(cs, m))];
    FromFresh(env, cb, g, RecordsBetween(cs, 1, k) + RecordsFrom(cs, m), regions, n);
  }

  lemma FirstChunkIsUnique(cs: seq<ChunkDesc>, q: nat, m: nat, m': nat)
    requires FirstChunkAt(cs, q, m) && FirstChunkAt(cs, q, m')
    ensures m == m'
  {
    hide IsPossibleChunkBoundary, End;
    if m < m' {
      StartMonotone(cs, m, m' - 1);
    } else if m' < m {
      StartMonotone(cs, m', m - 1);
    }
  }

  lemma DrainDamagedHeader(env: Env, cs: seq<ChunkDesc>, g: Bytes, k: nat) returns (m: nat)
    requires HeaderDamaged(env, cs, g, k)
    ensures k < m <= |cs| && FirstChunkAt(cs, BoundaryAfter(Start(cs, k)), m)
    ensures PreambleIsIntact(env.h, g)
    ensures DrainFrom(env, g, FIRST_CHUNK, None)
      == (RecordsBetween(cs, 1, k) + RecordsFrom(cs, m), [Region(Start(cs, k), Start(cs, m))])
  {
    hide DrainFrom, ParseChunkAt, RegionFor, RecordsFrom, RecordsBetween, End, WellFormedFile, FileImage, ReadEnd,
         ReadBytes, Resync, BoundaryAfter, FirstChunkAt, PreambleIsIntact;
    DamagedHeaderParse(env, cs, g, k);
    DamagedPreamble(env, cs, g, k);
    m := ResyncFindsChunk(env, cs, g, k, BoundaryAfter(Start(cs, k)));
    hide HeaderDamaged, DamagedIn, IsPossibleChunkBoundary;
    StartMonotone(cs, k, m);
    StartMonotone(cs, m, |cs|);
    hide Start;
    DrainStep(env, g, Start(cs, k), None);
    UntrustedRegion(env.h, g, Start(cs, k), Start(cs, m), None);
    DrainDamaged(env, cs, g, k, m);
    var regions := [Region(Start(cs, k), Start(cs, m))];
    assert regions + [] == regions;
  }
}
