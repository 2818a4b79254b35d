/**
 Chunks a reader has to refuse although nothing is damaged: of an unknown type but with
 records, of a known type but not what that type may be, or with data that do not decode.
 Such a chunk is lost, and nothing else.
 */
module ForeignChunks {
  import opened Bytes
  import opened BlockArithmetic
  import opened ChunkParsing
  import opened Layout
  import opened StoredChunks
  import opened Files
  import opened ReaderSpec
  import opened Recovery
  import Damage
  import Reading
  import CH = ChunkHeaders
  import SC = SimpleChunk

  /** The chunk fits the fields of its header. */
  predicate Sized(c: ChunkDesc) { |c.data| < TWO_64 && |c.records| < CH.TWO_56 && c.decodedSize < TWO_64 }

  /** No reader may pass over such a chunk, and none can read it. */
  predicate Unacceptable(env: Env, c: ChunkDesc) {
    match CH.TypeOfByte(c.typeByte)
    case None => c.records != []
    case Some(FileSignature) => c.data != [] || c.records != [] || c.decodedSize != 0
    case Some(FileMetadata) => c.records != []
    case Some(Padding) => c.records != [] || c.decodedSize != 0
    case Some(Simple) =>
      var rs := SC.DecodeData(env.codec, c.data, |c.records|, c.decodedSize);
      rs.None? || |rs.value| != |c.records|
    case Some(Transposed) =>
      var rs := env.transposed(HeaderOf(env.h, c), c.data);
      rs.None? || |rs.value| != |c.records|
  }

  /** Nothing but the type, the counts and the data decide what becomes of a chunk whose hashes are right. */
  lemma UnacceptableFails(env: Env, b: nat, e: nat, c: ChunkDesc)
    requires Sized(c)
    ensures var r := ClassifyChunk(env, b, e, HeaderOf(env.h, c), c.data);
      && (Unacceptable(env, c) <==> r == ParseTrusted(b, e, true))
      && (!Unacceptable(env, c) ==> r == ParseSkip(b, e) || (r.ParseData? && r.b == b && r.e == e))
  {
    WrittenHeaderFields(env.h, c);
  }

  /** A chunk that is wholly there and has its hashes right is judged by its contents. */
  lemma StoredChunkIsJudged(env: Env, f: Bytes, b: nat, c: ChunkDesc)
    requires StoredSoFar(env.h, f, b, c) && Sized(c) && FullyVisible(f, b, c)
    ensures ParseChunkAt(env, f, b) == ClassifyChunk(env, b, End(b, c), HeaderOf(env.h, c), c.data)
  {
    hide StoredSoFar, ReadHeaderAt, ReadDataAt, Rank, Phys, Advance, ChunkEnd, ClassifyChunk, IsDataChunk;
    AdvanceAdditive(b, CHUNK_HEADER_SIZE, |c.data|);
    AdvanceFacts(Advance(b, CHUNK_HEADER_SIZE), |c.data|);
    BeginsLegally(env.h, f, b, c);
    EndFacts(b, c);
    StoredHeaderReads(env.h, f, b, c);
    StoredDataReads(env.h, f, b, c);
    WrittenHeaderFields(env.h, c);
    EndIsChunkEnd(b, c);
  }

  lemma BeginsLegally(h: Hash, f: Bytes, b: nat, c: ChunkDesc)
    requires StoredSoFar(h, f, b, c)
    ensures IsPossibleChunkBoundary(b)
  {
  }

  // ---------------------------------------------------------------- files with such chunks

  /** A file each of whose chunks is readable or has to be refused. */
  ghost predicate MixedFile(env: Env, cs: seq<ChunkDesc>) {
    && |cs| > 0 && cs[0] == SIGNATURE && Start(cs, |cs|) < TWO_64
    && forall c | c in cs :: Sized(c) && (WellFormed(env, c) || Unacceptable(env, c))
  }

  /** The records of the readable chunks from number `k` on, and a region for every other one. */
  ghost function KeptAndRefused(env: Env, cs: seq<ChunkDesc>, k: nat): (seq<Bytes>, seq<Region>)
    requires k <= |cs|
    decreases |cs| - k
  {
    if k == |cs| then ([], [])
    else
      var rest := KeptAndRefused(env, cs, k + 1);
      if Unacceptable(env, cs[k]) then (rest.0, [Region(Start(cs, k), Start(cs, k + 1))] + rest.1)
      else (cs[k].records + rest.0, rest.1)
  }

  lemma ChunkOfMixedFile(env: Env, cs: seq<ChunkDesc>, k: nat)
    requires MixedFile(env, cs) && k < |cs|
    ensures var b := Start(cs, k);
      ParseChunkAt(env, FileImage(env.h, cs), b) ==
        if Unacceptable(env, cs[k]) then ParseTrusted(b, Start(cs, k + 1), true) else Expected(b, cs[k])
    ensures End(Start(cs, k), cs[k]) == Start(cs, k + 1) && Start(cs, k) < Start(cs, k + 1)
    ensures !Unacceptable(env, cs[k]) && !IsDataChunk(cs[k]) ==> cs[k].records == []
  {
    var b, c, f := Start(cs, k), cs[k], FileImage(env.h, cs);
    assert c in cs;
    EndFacts(b, c);
    ChunksAreStored(env.h, cs, k);
    StartMonotone(cs, k + 1, |cs|);
    hide MixedFile, Unacceptable, WellFormed, ByteAt, End, FileImage, ParseChunkAt, ClassifyChunk, Start,
         IsPossibleChunkBoundary, DataEnd;
    Reading.ChunkEndIsNextStart(cs, k);
    PrefixStoresSoFar(env.h, f, |f|, b, c);
    assert f[..|f|] == f;
    StoredChunkIsJudged(env, f, b, c);
    UnacceptableFails(env, b, End(b, c), c);
    if !Unacceptable(env, c) {
      WellFormedClassifies(env, b, c);
    }
  }

  lemma {:induction false} DrainsKept(env: Env, cs: seq<ChunkDesc>, k: nat, prev: Option<nat>)
    requires MixedFile(env, cs) && k <= |cs|
    ensures DrainFrom(env, FileImage(env.h, cs), Start(cs, k), prev) == KeptAndRefused(env, cs, k)
    decreases |cs| - k
  {
    hide MixedFile, DrainFrom, ParseChunkAt, RegionFor, Unacceptable, IsDataChunk, FileImage, End, Start,
         IsPossibleChunkBoundary;
    var f := FileImage(env.h, cs);
    if k == |cs| {
      Damage.DrainAtEnd(env, cs, f, prev);
    } else {
      ChunkOfMixedFile(env, cs, k);
      Damage.DrainStep(env, f, Start(cs, k), prev);
      var rest := KeptAndRefused(env, cs, k + 1);
      assert cs[k].records == [] ==> cs[k].records + rest.0 == rest.0;
      if Unacceptable(env, cs[k]) {
        BeginsAtBoundary(cs, k);
        BeginsAtBoundary(cs, k + 1);
        Damage.TrustedRegion(env.h, f, Start(cs, k), Start(cs, k + 1), prev);
        DrainsKept(env, cs, k + 1, Some(Start(cs, k + 1)));
      } else {
        DrainsKept(env, cs, k + 1, prev);
      }
    }
  }

  lemma BeginsAtBoundary(cs: seq<ChunkDesc>, k: nat)
    requires k <= |cs|
    ensures IsPossibleChunkBoundary(Start(cs, k))
  {
  }

  lemma {:induction false} FirstChunks(h: Hash, cs: seq<ChunkDesc>, n: nat)
    requires n <= |cs|
    ensures FileImage(h, cs[..n]) <= FileImage(h, cs)
    decreases |cs|
  {
    hide Start, Image, IsPossibleChunkBoundary;
    if n == |cs| {
      assert cs[..n] == cs;
    } else {
      var m := |cs| - 1;
      FirstChunks(h, cs[..m], n);
      assert cs[..m][..n] == cs[..n];
    }
  }

  lemma PreambleOfMixedFile(env: Env, cs: seq<ChunkDesc>)
    requires MixedFile(env, cs)
    ensures PreambleIsIntact(env.h, FileImage(env.h, cs)) && Start(cs, 1) == FIRST_CHUNK
  {
    SignatureEnds(cs);
    hide Start, FileImage, Unacceptable, IsPossibleChunkBoundary;
    var first := [SIGNATURE];
    assert cs[..1] == first;
    SignatureEnds(first);
    FirstChunks(env.h, cs, 1);
    SignatureIsWellFormed(env, first);
    var f, g := FileImage(env.h, first), FileImage(env.h, cs);
    Reading.PreambleOfFile(env, first, f);
    Damage.SamePreamble(env.h, f, g);
  }

  lemma SignatureIsWellFormed(env: Env, first: seq<ChunkDesc>)
    requires first == [SIGNATURE]
    ensures WellFormedFile(env, first)
  {
  }

  /**
   A file with chunks that have to be refused: reading it to the end, with any callback,
   delivers the records of all the others, in order, and reports each refused chunk, by its
   own extent. In particular a chunk of unknown type is passed over only if it claims no records.
   */
  lemma RefusedChunksAreLostAlone(env: Env, cb: Callback, cs: seq<ChunkDesc>, n: nat)
    requires MixedFile(env, cs)
    requires n == |KeptAndRefused(env, cs, 1).0| + |KeptAndRefused(env, cs, 1).1| + 1
    ensures var g := FileImage(env.h, cs);
      var (s, rs) := Run(env, Some(cb), g, Initial(g), n);
      && Open(env.h, Some(cb), g) == Some(Initial(g))
      && |rs| == n && rs[n - 1].EndOfFile?
      && Delivered(rs) == KeptAndRefused(env, cs, 1).0 && s.log == KeptAndRefused(env, cs, 1).1
  {
    PreambleOfMixedFile(env, cs);
    hide Start, FileImage, Run, Delivered, DrainFrom, KeptAndRefused, Open, PreambleIsIntact, IsPossibleChunkBoundary;
    DrainsKept(env, cs, 1, None);
    Damage.FromFresh(env, cb, FileImage(env.h, cs), KeptAndRefused(env, cs, 1).0, KeptAndRefused(env, cs, 1).1, n);
  }
}
