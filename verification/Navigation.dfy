/**
 Moving about in a written file. Seeking through the block headers finds what a walk over
 every chunk would find; a record's numeric position leads back to it; stepping back undoes
 reading, one record at a time, across chunks.
 */
module Navigation {
  import opened Bytes
  import opened BlockArithmetic
  import opened ChunkParsing
  import opened Layout
  import opened StoredChunks
  import opened Files
  import opened ReaderSpec
  import opened Reading
  import CH = ChunkHeaders
  import Recovery

  /** `f` is the file the chunks make. */
  ghost predicate IsFile(env: Env, cs: seq<ChunkDesc>, f: Bytes) {
    WellFormedFile(env, cs) && Start(cs, |cs|) < TWO_64 && f == FileImage(env.h, cs)
  }

  lemma FileFacts(env: Env, cs: seq<ChunkDesc>, f: Bytes)
    requires IsFile(env, cs, f)
    ensures PrefixOfFile(env, cs, f) && WholeFile(cs, f) && |cs| > 0
    ensures |f| == Start(cs, |cs|) && Start(cs, 1) == FIRST_CHUNK <= |f|
  {
    WholeFileIsLong(env, cs);
    SignatureEnds(cs);
  }

  // ---------------------------------------------------------------- headers of a file

  lemma HeaderOfFile(env: Env, cs: seq<ChunkDesc>, f: Bytes, i: nat)
    requires IsFile(env, cs, f) && i <= |cs|
    ensures var r := ReadHeaderAt(env.h, f, Start(cs, i));
      if i == |cs| then r == HeaderEof
      else Readable(env.h, r) && r.chunkBegin == Start(cs, i) && r.ch.Type() == CH.TypeOfByte(cs[i].typeByte)
           && r.ch.NumRecords() == |cs[i].records| && EndOf(Start(cs, i), r.ch) == Start(cs, i + 1)
    ensures i < |cs| ==> Start(cs, i) + |cs[i].records| <= Start(cs, i + 1) && Start(cs, i) < Start(cs, i + 1)
  {
    hide IsFile, PrefixOfFile, WholeFile, ReadHeaderAt, Start, IsPossibleChunkBoundary, CanonicalChunkAddress;
    FileFacts(env, cs, f);
    if i == |cs| {
      CanonicalFacts(Start(cs, i));
      EndOfHeaders(env.h, f, Start(cs, i));
    } else {
      ChunkIsStoredSoFar(env, cs, f, i);
      StartMonotone(cs, i + 1, |cs|);
      StoredHeaderIsReadable(env, f, Start(cs, i), cs[i]);
    }
  }

  lemma EndOfHeaders(h: Hash, f: Bytes, pos: nat)
    requires |f| <= CanonicalChunkAddress(pos)
    ensures ReadHeaderAt(h, f, pos) == HeaderEof
  {
  }

  /** The header of a chunk that is wholly there can be used by a scan. */
  lemma StoredHeaderIsReadable(env: Env, f: Bytes, b: nat, c: ChunkDesc)
    requires StoredSoFar(env.h, f, b, c) && WellFormed(env, c) && End(b, c) <= |f|
    ensures var r := ReadHeaderAt(env.h, f, b);
      && Readable(env.h, r) && r.chunkBegin == b && r.ch.Type() == CH.TypeOfByte(c.typeByte)
      && r.ch.NumRecords() == |c.records| && EndOf(b, r.ch) == End(b, c)
    ensures b + |c.records| <= End(b, c) && b < End(b, c)
  {
    hide WellFormed, StoredSoFar, ReadHeaderAt, ChunkEnd, Advance, Rank, Phys, IsPossibleChunkBoundary, HeaderOf;
    assert IsPossibleChunkBoundary(b) by { StoredStartsLegally(env.h, f, b, c); }
    StoredIsSized(env, f, b, c);
    EndFacts(b, c);
    AdvanceAdditive(b, CHUNK_HEADER_SIZE, |c.data|);
    AdvanceFacts(Advance(b, CHUNK_HEADER_SIZE), |c.data|);
    StoredHeaderReads(env.h, f, b, c);
    EndIsChunkEnd(b, c);
    WrittenHeaderFields(env.h, c);
  }

  lemma StoredStartsLegally(h: Hash, f: Bytes, b: nat, c: ChunkDesc)
    requires StoredSoFar(h, f, b, c)
    ensures IsPossibleChunkBoundary(b)
  {
  }

  // ---------------------------------------------------------------- scan origins

  lemma RoundedDown(pos: nat)
    ensures var q := RoundDownToBlockBoundary(pos); IsBlockBoundary(q) && q <= pos && (q > 0 ==> q >= BLOCK_SIZE)
  {
  }

  lemma OriginFromHeader(h: Hash, g: Bytes, t: nat, q: nat, b: nat, e: nat)
    requires q == RoundDownToBlockBoundary(Min(t, |g|)) && q > 0 && Agrees(h, g, q, b, e)
    ensures ScanOrigin(h, g, t) == Usable(if b == q then q else if e <= t then e else b)
  {
    hide RoundDownToBlockBoundary, BlockHeaderAt, Usable;
  }

  lemma OriginAtBoundary(env: Env, cs: seq<ChunkDesc>, f: Bytes, target: nat, q: nat) returns (o: nat)
    requires IsFile(env, cs, f)
    requires q == RoundDownToBlockBoundary(Min(target, |f|)) && 0 < q < |f|
    ensures 1 <= o <= |cs| && ScanOrigin(env.h, f, target) == Start(cs, o) <= target
  {
    hide WellFormedFile, FileImage, End, IsPossibleChunkBoundary, IsBlockBoundary, RoundDownToBlockBoundary, Start,
         Agrees, ScanOrigin, Usable;
    FileFacts(env, cs, f);
    StartFacts(cs);
    RoundedDown(Min(target, |f|));
    var i := FindCovering(cs, |cs|, q);
    BoundaryAgrees(env, cs, i, q);
    StartsOrdered(cs, i + 1, 1);
    StartsOrdered(cs, 1, i);
    StartsOrdered(cs, i, i + 1);
    o := if Start(cs, i) == q then i else if Start(cs, i + 1) <= target then i + 1 else i;
    hide IsFile, PrefixOfFile, WholeFile;
    UsableStart(cs, o);
    OriginFromHeader(env.h, f, target, q, Start(cs, i), Start(cs, i + 1));
  }

  lemma StartFacts(cs: seq<ChunkDesc>)
    ensures Start(cs, 0) == 0
  {
  }

  lemma StartsOrdered(cs: seq<ChunkDesc>, i: nat, j: nat)
    ensures i <= j <= |cs| ==> Start(cs, i) <= Start(cs, j)
    ensures i < j <= |cs| ==> Start(cs, i) < Start(cs, j)
  {
    if i <= j <= |cs| {
      StartMonotone(cs, i, j);
    }
  }

  lemma UsableStart(cs: seq<ChunkDesc>, o: nat)
    requires o <= |cs| && Start(cs, o) >= FIRST_CHUNK
    ensures Usable(Start(cs, o)) == Start(cs, o)
  {
  }

  /** A scan starts at some chunk, not after the target unless it is the first one. */
  lemma OriginIsChunk(env: Env, cs: seq<ChunkDesc>, f: Bytes, target: nat) returns (o: nat)
    requires IsFile(env, cs, f)
    ensures 1 <= o <= |cs| && ScanOrigin(env.h, f, target) == Start(cs, o)
    ensures o == 1 || Start(cs, o) <= target
  {
    hide WellFormedFile, FileImage, End, IsPossibleChunkBoundary, Start;
    FileFacts(env, cs, f);
    var q := RoundDownToBlockBoundary(Min(target, |f|));
    if 0 < q < |f| {
      o := OriginAtBoundary(env, cs, f, target, q);
    } else {
      o := 1;
    }
  }

  // ---------------------------------------------------------------- seek_numeric agrees with the walk

  /** A walk towards `numeric` passes over every chunk before one that starts at or before it. */
  lemma {:induction false} WalkPassesChunks(env: Env, cb: Option<Callback>, cs: seq<ChunkDesc>, f: Bytes, s: Reader,
                                            i: nat, o: nat, numeric: nat)
    requires s.streamLen == |f|
    requires IsFile(env, cs, f) && i <= o <= |cs| && (i == o || Start(cs, o) <= numeric)
    ensures SeekScan(env, cb, f, s, Start(cs, i), numeric) == SeekScan(env, cb, f, s, Start(cs, o), numeric)
    decreases o - i
  {
    hide IsFile, SeekScan, ReadHeaderAt, EndOf, Readable, End, IsPossibleChunkBoundary, Start, ReaderSpec.Seek;
    if i < o {
      HeaderOfFile(env, cs, f, i);
      StartsOrdered(cs, i + 1, o);
      PassChunk(env, cb, f, s, Start(cs, i), numeric);
      WalkPassesChunks(env, cb, cs, f, s, i + 1, o, numeric);
    }
  }

  lemma PassChunk(env: Env, cb: Option<Callback>, f: Bytes, s: Reader, scanPos: nat, numeric: nat)
    requires s.streamLen == |f|
    requires var r := ReadHeaderAt(env.h, f, scanPos);
      Readable(env.h, r) && scanPos < numeric && scanPos + r.ch.NumRecords() <= numeric
    ensures SeekScan(env, cb, f, s, scanPos, numeric)
      == SeekScan(env, cb, f, s, EndOf(scanPos, ReadHeaderAt(env.h, f, scanPos).ch), numeric)
  {
    hide ReadHeaderAt, EndOf, ReaderSpec.Seek;
  }

  /**
   For every target, starting from a block header ends in the same state as walking over every chunk from the
   first.
   */
  lemma SeekNumericIsTheWalk(env: Env, cb: Option<Callback>, cs: seq<ChunkDesc>, f: Bytes, s: Reader, numeric: nat)
    requires s.streamLen == |f|
    requires IsFile(env, cs, f)
    ensures SeekNumeric(env, cb, f, s, numeric) == SeekScan(env, cb, f, s, FIRST_CHUNK, numeric)
  {
    hide SeekScan, ScanOrigin;
    FileFacts(env, cs, f);
    var o := OriginIsChunk(env, cs, f, numeric);
    WalkPassesChunks(env, cb, cs, f, s, 1, o, numeric);
  }

  // ---------------------------------------------------------------- places

  /**
   Where a reader can stand: in chunk `j` before its record `k`, the next chunk to load being
   number `next`; or before everything, as after opening.
   */
  datatype Place = Beginning(next: nat) | InChunk(j: nat, k: nat, next: nat)

  function CountAt(cs: seq<ChunkDesc>, j: nat): nat
    requires j <= |cs|
  {
    if j < |cs| then |cs[j].records| else 0
  }

  ghost predicate StandsAt(cs: seq<ChunkDesc>, s: Reader, p: Place) {
    && s.streamLen == Start(cs, |cs|)
    && p.next <= |cs| && s.nextChunkFilePos == Start(cs, p.next)
    && match p
       case Beginning(next) =>
         s.currentChunkBegin < FIRST_CHUNK && s.currentRecordIndex == 0 && s.decoder.None?
         && RecordlessBetween(cs, 0, next)
       case InChunk(j, k, next) =>
         && 1 <= j <= |cs| && k <= CountAt(cs, j)
         && s.currentChunkBegin == Start(cs, j) && s.currentRecordIndex == k
         && (j < |cs| ==> j < next) && (k > 0 ==> IsDataChunk(cs[j]))
         && (if s.decoder.Some? then j < |cs| && next == j + 1
            && s.decoder.value == Decoder(cs[j].records, k) && IsDataChunk(cs[j])
             else k == CountAt(cs, j) && j <= next && (j < |cs| ==> RecordlessBetween(cs, j + 1, next)))
  }

  /** How many records of the file come before that place. */
  function IndexOf(cs: seq<ChunkDesc>, p: Place): nat
    requires p.InChunk? ==> p.j <= |cs|
  {
    match p
    case Beginning(_) => 0
    case InChunk(j, k, _) => RecordsBefore(cs, j) + k
  }

  function RecordsBefore(cs: seq<ChunkDesc>, j: nat): nat
    requires j <= |cs|
  {
    if j == 0 then 0 else RecordsBefore(cs, j - 1) + |cs[j - 1].records|
  }

  lemma {:induction false} RecordAt(cs: seq<ChunkDesc>, i: nat, j: nat, k: nat)
    requires i <= j < |cs| && k < |cs[j].records|
    ensures var m := RecordsBefore(cs, j) - RecordsBefore(cs, i) + k;
      0 <= m < |RecordsFrom(cs, i)| && RecordsFrom(cs, i)[m] == cs[j].records[k]
    decreases j - i
  {
    if i < j {
      RecordAt(cs, i + 1, j, k);
      assert RecordsBefore(cs, i + 1) == RecordsBefore(cs, i) + |cs[i].records|;
    }
  }

  lemma {:induction false} RecordTotal(cs: seq<ChunkDesc>, i: nat)
    requires i <= |cs|
    ensures RecordsBefore(cs, i) + |RecordsFrom(cs, i)| == RecordsBefore(cs, |cs|)
    decreases |cs| - i
  {
    if i < |cs| {
      RecordTotal(cs, i + 1);
      assert RecordsBefore(cs, i + 1) == RecordsBefore(cs, i) + |cs[i].records|;
    }
  }

  lemma {:induction false} CountsOrdered(cs: seq<ChunkDesc>, i: nat, j: nat)
    requires i <= j <= |cs|
    ensures RecordsBefore(cs, i) <= RecordsBefore(cs, j)
    decreases j - i
  {
    if i < j {
      CountsOrdered(cs, i, j - 1);
    }
  }

  lemma {:induction false} RecordlessCount(cs: seq<ChunkDesc>, i: nat, j: nat)
    requires i <= j <= |cs| && RecordlessBetween(cs, i, j)
    ensures RecordsBefore(cs, i) == RecordsBefore(cs, j)
    decreases j - i
  {
    if i < j {
      RecordlessCount(cs, i, j - 1);
    }
  }

  // ---------------------------------------------------------------- reading from a place

  /**
   What one call does to the place: the record there comes out and the reader stands behind it, or the file
   is at its end.
   */
  ghost predicate ReadsThere(cs: seq<ChunkDesc>, p: Place, s': Reader, r: ReadResult, p': Place) {
    && StandsAt(cs, s', p') && (p.InChunk? ==> p.j <= |cs|)
    && var all, m := RecordsFrom(cs, 0), IndexOf(cs, p);
       if m < |all| then
         && r == GotRecord(all[m]) && p'.InChunk? && p'.k > 0 && IndexOf(cs, p') == m + 1
         && s'.lastPos == RecordPosition(Start(cs, p'.j), p'.k - 1)
         && s'.pos == RecordPosition(Start(cs, p'.j), p'.k)
       else r == EndOfFile && IndexOf(cs, p') == m
  }

  lemma TakeThere(env: Env, cb: Option<Callback>, cs: seq<ChunkDesc>, f: Bytes, s: Reader, p: Place)
    requires StandsAt(cs, s, p) && s.decoder.Some? && s.decoder.value.HasNext()
    ensures var (s', r) := ReadRecord(env, cb, f, s); p.InChunk? && ReadsThere(cs, p, s', r, p.(k := p.k + 1))
  {
    hide LoadFrom, Start, IsDataChunk;
    RecordAt(cs, 0, p.j, p.k);
  }

  /** The place reached by loading chunk `j`. */
  lemma PlaceAfterLoad(cs: seq<ChunkDesc>, s: Reader, p: Place, j: nat)
    requires StandsAt(cs, s, p) && !(s.decoder.Some? && s.decoder.value.HasNext())
    requires p.next <= j < |cs| && RecordlessBetween(cs, p.next, j) && j > 0 && IsDataChunk(cs[j])
    ensures var s1 := AfterLoad(s.(decoder := None), Start(cs, j), Start(cs, j + 1), cs[j].records);
      StandsAt(cs, s1, InChunk(j, 0, j + 1)) && IndexOf(cs, InChunk(j, 0, j + 1)) == IndexOf(cs, p)
  {
    hide Start, IsDataChunk;
    RestIsRecordless(cs, s, p);
    RecordlessCount(cs, p.next, j);
  }

  /** With nothing left in the decoder, the records before the place are those before the next chunk. */
  lemma RestIsRecordless(cs: seq<ChunkDesc>, s: Reader, p: Place)
    requires StandsAt(cs, s, p) && !(s.decoder.Some? && s.decoder.value.HasNext())
    ensures IndexOf(cs, p) == RecordsBefore(cs, p.next)
  {
    hide Start, IsDataChunk;
    if p.Beginning? {
      RecordlessCount(cs, 0, p.next);
    } else if p.j < |cs| {
      RecordlessCount(cs, p.j + 1, p.next);
    }
  }

  /** The place when there is no further record. */
  lemma PlaceAtEof(cs: seq<ChunkDesc>, s: Reader, p: Place) returns (p': Place)
    requires StandsAt(cs, s, p) && !(s.decoder.Some? && s.decoder.value.HasNext())
    requires RecordlessBetween(cs, p.next, |cs|)
    ensures StandsAt(cs, s.(decoder := None, nextChunkFilePos := Start(cs, |cs|), atEof := true), p')
    ensures (p'.InChunk? ==> p'.j <= |cs|) && IndexOf(cs, p') == IndexOf(cs, p) == |RecordsFrom(cs, 0)|
  {
    hide Start, IsDataChunk;
    RestIsRecordless(cs, s, p);
    RecordlessCount(cs, p.next, |cs|);
    RecordTotal(cs, 0);
    p' := if p.Beginning? then Beginning(|cs|) else p.(next := |cs|);
  }

  lemma {:induction false} ReadThere(env: Env, cb: Option<Callback>, cs: seq<ChunkDesc>, f: Bytes, s: Reader, p: Place)
    returns (p': Place)
    requires IsFile(env, cs, f) && StandsAt(cs, s, p)
    ensures var (s', r) := ReadRecord(env, cb, f, s); ReadsThere(cs, p, s', r, p')
    decreases Gap(f, s.nextChunkFilePos)
  {
    FileFacts(env, cs, f);
    hide ReadRecord, AtRest, LoadFrom, Gap, IsFile, PrefixOfFile, Start, IsPossibleChunkBoundary, ReadsThere,
         RecordlessBetween, IndexOf, IsDataChunk, TryRecover;
    if s.decoder.Some? && s.decoder.value.HasNext() {
      TakeThere(env, cb, cs, f, s, p);
      p' := p.(k := p.k + 1);
    } else {
      var (s', r) := ReadRecord(env, cb, f, s);
      ReadRecordLoads(env, cb, f, s);
      var j := LoadOfFile(env, cs, f, p.next);
      Recovery.LoadDecreases(env, f, s.nextChunkFilePos);
      match LoadFrom(env, f, s.nextChunkFilePos) {
        case Loaded(b, e, records) =>
          DataChunkIsNotFirst(env, cs, f, j);
          PlaceAfterLoad(cs, s, p, j);
          var s1 := AfterLoad(s.(decoder := None), b, e, records);
          p' := ReadThere(env, cb, cs, f, s1, InChunk(j, 0, j + 1));
          SameIndex(cs, p, InChunk(j, 0, j + 1), s', r, p');
        case LoadEof(at) =>
          p' := PlaceAtEof(cs, s, p);
          EofThere(cs, p, s', p');
        case LoadFailed(_, _) =>
          assert false;
      }
    }
  }

  lemma DataChunkIsNotFirst(env: Env, cs: seq<ChunkDesc>, f: Bytes, j: nat)
    requires PrefixOfFile(env, cs, f) && j < |cs| && IsDataChunk(cs[j])
    ensures j > 0
  {
  }

  lemma SameIndex(cs: seq<ChunkDesc>, p: Place, p1: Place, s': Reader, r: ReadResult, p': Place)
    requires ReadsThere(cs, p1, s', r, p')
    requires (p.InChunk? ==> p.j <= |cs|) && (p1.InChunk? ==> p1.j <= |cs|) && IndexOf(cs, p) == IndexOf(cs, p1)
    ensures ReadsThere(cs, p, s', r, p')
  {
    hide StandsAt, IndexOf;
  }

  lemma EofThere(cs: seq<ChunkDesc>, p: Place, s': Reader, p': Place)
    requires StandsAt(cs, s', p') && (p.InChunk? ==> p.j <= |cs|)
    requires (p'.InChunk? ==> p'.j <= |cs|) && IndexOf(cs, p') == IndexOf(cs, p) == |RecordsFrom(cs, 0)|
    ensures ReadsThere(cs, p, s', EndOfFile, p')
  {
    hide StandsAt, IndexOf;
  }

  // ---------------------------------------------------------------- seeking to a place

  lemma LoadOfParsedData(env: Env, f: Bytes, pos: nat)
    ensures var p := ParseChunkAt(env, f, pos); p.ParseData? ==> LoadFrom(env, f, pos) == Loaded(p.b, p.e, p.records)
  {
    hide ParseChunkAt, Gap;
  }

  lemma LoadOfDataChunk(env: Env, cs: seq<ChunkDesc>, f: Bytes, j: nat)
    requires IsFile(env, cs, f) && 1 <= j < |cs| && IsDataChunk(cs[j])
    ensures CanonicalChunkAddress(Start(cs, j)) == Start(cs, j)
    ensures LoadFrom(env, f, Start(cs, j)) == Loaded(Start(cs, j), Start(cs, j + 1), cs[j].records)
  {
    hide IsFile, PrefixOfFile, WholeFile, FullyVisible, LoadFrom, ParseChunkAt, IsDataChunk, End, Start,
         IsPossibleChunkBoundary, CanonicalChunkAddress;
    FileFacts(env, cs, f);
    CanonicalFacts(Start(cs, j));
    ChunkOfFileParses(env, cs, f, j);
    StartsOrdered(cs, j + 1, |cs|);
    ChunkEndIsNextStart(cs, j);
    LoadOfParsedData(env, f, Start(cs, j));
  }

  lemma SeekOfLoad(env: Env, cb: Option<Callback>, f: Bytes, s: Reader, b: nat, k: nat)
    requires s.streamLen == |f|
    requires CanonicalChunkAddress(b) == b && LoadFrom(env, f, b).Loaded? && LoadFrom(env, f, b).begin == b
    requires k <= |LoadFrom(env, f, b).records|
    ensures var (s', ok) := ReaderSpec.Seek(env, cb, f, s, RecordPosition(b, k));
      && ok
      && s'.decoder == Some(Decoder(LoadFrom(env, f, b).records, k)) && s'.nextChunkFilePos == LoadFrom(env, f, b).end
      && s'.currentChunkBegin == b && s'.currentRecordIndex == k && s'.lastPos == s.lastPos
      && s'.pos == RecordPosition(b, k) && s'.log == s.log && s'.streamLen == |f|
  {
    hide LoadFrom, Touched, TryRecover, CanonicalChunkAddress;
  }

  lemma PlacedInChunk(cs: seq<ChunkDesc>, s: Reader, j: nat, k: nat)
    requires 1 <= j < |cs| && k <= |cs[j].records| && IsDataChunk(cs[j])
    requires s.decoder == Some(Decoder(cs[j].records, k)) && s.nextChunkFilePos == Start(cs, j + 1)
    requires s.currentChunkBegin == Start(cs, j) && s.currentRecordIndex == k && s.streamLen == Start(cs, |cs|)
    ensures StandsAt(cs, s, InChunk(j, k, j + 1))
  {
    hide Start, IsDataChunk;
  }

  lemma SeekDataChunk(env: Env, cb: Option<Callback>, cs: seq<ChunkDesc>, f: Bytes, s: Reader, j: nat, k: nat)
    requires s.streamLen == |f|
    requires IsFile(env, cs, f) && 1 <= j < |cs| && IsDataChunk(cs[j]) && k <= |cs[j].records|
    ensures var (s', ok) := ReaderSpec.Seek(env, cb, f, s, RecordPosition(Start(cs, j), k));
      ok && StandsAt(cs, s', InChunk(j, k, j + 1)) && s'.lastPos == s.lastPos
      && s'.pos == RecordPosition(Start(cs, j), k) && s'.log == s.log
  {
    hide IsFile, LoadFrom, IsDataChunk, Start, IsPossibleChunkBoundary, CanonicalChunkAddress, ReaderSpec.Seek,
         StandsAt;
    FileFacts(env, cs, f);
    LoadOfDataChunk(env, cs, f, j);
    var b := Start(cs, j);
    SeekOfLoad(env, cb, f, s, b, k);
    PlacedInChunk(cs, ReaderSpec.Seek(env, cb, f, s, RecordPosition(b, k)).0, j, k);
  }

  lemma FindInChunk(env: Env, cb: Option<Callback>, f: Bytes, s: Reader, scanPos: nat, k: nat)
    requires s.streamLen == |f|
    requires var r := ReadHeaderAt(env.h, f, scanPos); Readable(env.h, r) && k < r.ch.NumRecords()
    ensures SeekScan(env, cb, f, s, scanPos, scanPos + k) == ReaderSpec.Seek(env, cb, f, s, RecordPosition(scanPos, k))
  {
    hide ReadHeaderAt, EndOf, ReaderSpec.Seek, TryRecover;
  }

  /** From the numeric position of a record the walk finds its chunk. */
  lemma WalkFindsRecord(env: Env, cb: Option<Callback>, cs: seq<ChunkDesc>, f: Bytes, s: Reader, j: nat, k: nat)
    requires s.streamLen == |f|
    requires IsFile(env, cs, f) && 1 <= j < |cs| && k < |cs[j].records|
    ensures SeekNumeric(env, cb, f, s, Start(cs, j) + k)
      == ReaderSpec.Seek(env, cb, f, s, RecordPosition(Start(cs, j), k))
  {
    hide SeekNumeric, SeekScan, ReadHeaderAt, EndOf, ReaderSpec.Seek, IsFile, PrefixOfFile, WholeFile, Start,
         IsPossibleChunkBoundary;
    FileFacts(env, cs, f);
    HeaderOfFile(env, cs, f, j);
    SeekNumericIsTheWalk(env, cb, cs, f, s, Start(cs, j) + k);
    WalkPassesChunks(env, cb, cs, f, s, 1, j, Start(cs, j) + k);
    FindInChunk(env, cb, f, s, Start(cs, j), k);
  }

  lemma ReadInChunk(env: Env, cb: Option<Callback>, cs: seq<ChunkDesc>, f: Bytes, s: Reader, p: Place)
    requires StandsAt(cs, s, p) && p.InChunk? && p.j < |cs| && p.k < |cs[p.j].records|
    ensures ReadRecord(env, cb, f, s).1 == GotRecord(cs[p.j].records[p.k])
  {
    hide LoadFrom, Start, IsDataChunk, TryRecover;
  }

  /**
   The numeric position of record `k` of chunk `j` leads, from any state of the reader, to the
   place before that record, and reading there returns it.
   */
  lemma NumericPositionFindsRecord(env: Env, cb: Option<Callback>, cs: seq<ChunkDesc>, f: Bytes, s: Reader, j: nat,
                                   k: nat)
    requires s.streamLen == |f|
    requires IsFile(env, cs, f) && 1 <= j < |cs| && IsDataChunk(cs[j]) && k < |cs[j].records|
    ensures var (s1, ok) := SeekNumeric(env, cb, f, s, RecordPosition(Start(cs, j), k).Numeric());
      && ok && StandsAt(cs, s1, InChunk(j, k, j + 1)) && s1.lastPos == s.lastPos
      && ReadRecord(env, cb, f, s1).1 == GotRecord(cs[j].records[k])
  {
    hide IsFile, IsPossibleChunkBoundary, SeekNumeric, ReaderSpec.Seek, IsDataChunk, StandsAt, ReadRecord, Start;
    WalkFindsRecord(env, cb, cs, f, s, j, k);
    SeekDataChunk(env, cb, cs, f, s, j, k);
    var (s1, _) := SeekNumeric(env, cb, f, s, Start(cs, j) + k);
    ReadInChunk(env, cb, cs, f, s1, InChunk(j, k, j + 1));
  }

  /**
   Whatever record a call has just returned, seeking to the numeric form of its position and
   reading returns it again.
   */
  lemma LastPositionLeadsBack(env: Env, cb: Option<Callback>, cs: seq<ChunkDesc>, f: Bytes, s: Reader, p: Place,
                              s2: Reader)
    requires IsFile(env, cs, f) && StandsAt(cs, s, p) && s2.streamLen == |f|
    requires ReadRecord(env, cb, f, s).1.GotRecord?
    ensures var (s1, r) := ReadRecord(env, cb, f, s);
      var (s3, ok) := SeekNumeric(env, cb, f, s2, s1.lastPos.Numeric());
      ok && ReadRecord(env, cb, f, s3).1 == r
  {
    hide IsFile, IsPossibleChunkBoundary, Start, SeekNumeric, ReadRecord, IsDataChunk;
    var p' := ReadThere(env, cb, cs, f, s, p);
    var (s1, r) := ReadRecord(env, cb, f, s);
    LastReadIsRecordOfChunk(cs, p, s1, r, p');
    NumericPositionFindsRecord(env, cb, cs, f, s2, p'.j, p'.k - 1);
  }

  lemma LastReadIsRecordOfChunk(cs: seq<ChunkDesc>, p: Place, s1: Reader, r: ReadResult, p': Place)
    requires ReadsThere(cs, p, s1, r, p') && r.GotRecord?
    ensures p'.InChunk? && 1 <= p'.j < |cs| && 0 < p'.k <= |cs[p'.j].records| && IsDataChunk(cs[p'.j])
    ensures r == GotRecord(cs[p'.j].records[p'.k - 1])
    ensures s1.lastPos == RecordPosition(Start(cs, p'.j), p'.k - 1)
  {
    hide IsDataChunk, Start;
    assert p'.k - 1 < CountAt(cs, p'.j);
    RecordAt(cs, 0, p'.j, p'.k - 1);
  }

  // ---------------------------------------------------------------- stepping back

  /** The walk finds the chunk that covers the target. */
  lemma {:induction false} FindScanFinds(env: Env, cs: seq<ChunkDesc>, f: Bytes, i: nat, c: nat, target: nat)
    requires IsFile(env, cs, f) && i <= c < |cs| && Start(cs, c) <= target < Start(cs, c + 1)
    ensures var r := FindScan(env.h, f, Start(cs, i), target);
      r.Found? && r.begin == Start(cs, c) && r.ch.NumRecords() == |cs[c].records|
    decreases c - i
  {
    hide IsFile, ReadHeaderAt, EndOf, End, Start, IsPossibleChunkBoundary;
    HeaderOfFile(env, cs, f, i);
    StartsOrdered(cs, i + 1, c);
    if i < c {
      FindScanFinds(env, cs, f, i + 1, c, target);
    }
  }

  lemma FindsPreviousChunk(env: Env, cs: seq<ChunkDesc>, f: Bytes, j: nat)
    requires IsFile(env, cs, f) && 2 <= j <= |cs|
    ensures Start(cs, j - 1) < Start(cs, j)
    ensures var r := FindChunkBefore(env.h, f, Start(cs, j) - 1);
      r.Found? && r.begin == Start(cs, j - 1) && r.ch.NumRecords() == |cs[j - 1].records|
  {
    hide IsFile, FindScan, ScanOrigin, End, Start, IsPossibleChunkBoundary;
    StartsOrdered(cs, j - 1, j);
    var target := Start(cs, j) - 1;
    var o := OriginIsChunk(env, cs, f, target);
    StartsOrdered(cs, j, o);
    FindScanFinds(env, cs, f, o, j - 1, target);
  }

  /** One turn of the backward walk. */
  lemma SeekBackTurn(env: Env, cb: Option<Callback>, f: Bytes, s: Reader, chunkPos: nat)
    requires s.streamLen == |f|
    requires chunkPos > FIRST_CHUNK && FindChunkBefore(env.h, f, chunkPos - 1).Found?
    requires FindChunkBefore(env.h, f, chunkPos - 1).begin < chunkPos
    ensures var r, back := FindChunkBefore(env.h, f, chunkPos - 1), SeekBackFrom(env, cb, f, s, chunkPos);
      && (r.ch.NumRecords() == 0 ==> back == SeekBackFrom(env, cb, f, s, r.begin))
      && (r.ch.NumRecords() > 0 ==>
            var (s1, ok) := ReaderSpec.Seek(env, cb, f, s, RecordPosition(r.begin, r.ch.NumRecords() - 1));
            back == (s1, if ok then SteppedBack else SeekBackError))
  {
    hide FindChunkBefore, ReaderSpec.Seek;
  }

  /** What stepping back to before record number `m` means; with no record before it, nothing happens. */
  ghost predicate StepsTo(cs: seq<ChunkDesc>, s: Reader, m: nat, s': Reader, r: SeekBackResult, p': Place) {
    if m == 0 then r == NoPrevious && s' == s
    else r == SteppedBack && StandsAt(cs, s', p') && p'.InChunk? && p'.j <= |cs| && p'.k < CountAt(cs, p'.j)
         && IndexOf(cs, p') == m - 1 && s'.lastPos == s.lastPos && s'.log == s.log
         && s'.pos == RecordPosition(Start(cs, p'.j), p'.k)
  }

  lemma LastRecordBefore(cs: seq<ChunkDesc>, s: Reader, j: nat, s': Reader)
    requires 2 <= j <= |cs| && |cs[j - 1].records| > 0
    requires StandsAt(cs, s', InChunk(j - 1, |cs[j - 1].records| - 1, j)) && s'.lastPos == s.lastPos
    requires s'.pos == RecordPosition(Start(cs, j - 1), |cs[j - 1].records| - 1) && s'.log == s.log
    ensures StepsTo(cs, s, RecordsBefore(cs, j), s', SteppedBack, InChunk(j - 1, |cs[j - 1].records| - 1, j))
  {
    hide StandsAt;
  }

  /** The last record of the chunk before, when it has one. */
  lemma BackIntoChunk(env: Env, cb: Option<Callback>, cs: seq<ChunkDesc>, f: Bytes, s: Reader, j: nat)
    returns (p': Place)
    requires s.streamLen == |f|
    requires IsFile(env, cs, f) && 2 <= j <= |cs| && |cs[j - 1].records| > 0
    ensures var (s', ok) := ReaderSpec.Seek(env, cb, f, s, RecordPosition(Start(cs, j - 1), |cs[j - 1].records| - 1));
      ok && StepsTo(cs, s, RecordsBefore(cs, j), s', SteppedBack, p')
  {
    hide IsFile, PrefixOfFile, WholeFile, ReaderSpec.Seek, StandsAt, StepsTo, Start, IsPossibleChunkBoundary,
         IsDataChunk, RecordsBefore;
    FileFacts(env, cs, f);
    ChunkWithRecordsIsData(env, cs, f, j - 1);
    var k := |cs[j - 1].records| - 1;
    SeekDataChunk(env, cb, cs, f, s, j - 1, k);
    p' := InChunk(j - 1, k, j);
    LastRecordBefore(cs, s, j, ReaderSpec.Seek(env, cb, f, s, RecordPosition(Start(cs, j - 1), k)).0);
  }

  /** Walking back from the beginning of chunk `j`: to the last record before it, if there is one. */
  lemma {:induction false} SeekBackFromChunk(env: Env, cb: Option<Callback>, cs: seq<ChunkDesc>, f: Bytes, s: Reader,
                                             j: nat)
    returns (p': Place)
    requires s.streamLen == |f|
    requires IsFile(env, cs, f) && 1 <= j <= |cs|
    ensures var (s', r) := SeekBackFrom(env, cb, f, s, Start(cs, j)); StepsTo(cs, s, RecordsBefore(cs, j), s', r, p')
    decreases j
  {
    hide IsFile, PrefixOfFile, WholeFile, FindChunkBefore, ReaderSpec.Seek, Start, IsPossibleChunkBoundary, StepsTo,
         SeekBackFrom;
    FileFacts(env, cs, f);
    p' := Beginning(0);
    if j == 1 {
      NoChunkBeforeFirst(env, cb, f, s);
      FirstChunkHasNothingBefore(env, cs, f);
      NothingBefore(cs, s, p');
    } else {
      FindsPreviousChunk(env, cs, f, j);
      StartsOrdered(cs, 1, j);
      SeekBackTurn(env, cb, f, s, Start(cs, j));
      if |cs[j - 1].records| > 0 {
        p' := BackIntoChunk(env, cb, cs, f, s, j);
      } else {
        p' := SeekBackFromChunk(env, cb, cs, f, s, j - 1);
      }
    }
  }

  lemma NoChunkBeforeFirst(env: Env, cb: Option<Callback>, f: Bytes, s: Reader)
    ensures SeekBackFrom(env, cb, f, s, FIRST_CHUNK) == (s, NoPrevious)
  {
  }

  lemma NothingBefore(cs: seq<ChunkDesc>, s: Reader, p: Place)
    ensures StepsTo(cs, s, 0, s, NoPrevious, p)
  {
  }

  lemma FirstChunkHasNothingBefore(env: Env, cs: seq<ChunkDesc>, f: Bytes)
    requires PrefixOfFile(env, cs, f)
    ensures |cs| > 0 && RecordsBefore(cs, 1) == 0
  {
    assert RecordsBefore(cs, 1) == RecordsBefore(cs, 0) + |cs[0].records|;
  }

  lemma ChunkWithRecordsIsData(env: Env, cs: seq<ChunkDesc>, f: Bytes, j: nat)
    requires PrefixOfFile(env, cs, f) && j < |cs| && |cs[j].records| > 0
    ensures IsDataChunk(cs[j]) && j > 0
  {
    assert WellFormed(env, cs[j]);
    CH.WrittenHeaderReadsBack(env.h, [], 0, 0, 0);
  }

  /** Stepping back from any place: to the previous record, or nowhere if there is none. */
  lemma StepBackThere(env: Env, cb: Option<Callback>, cs: seq<ChunkDesc>, f: Bytes, s: Reader, p: Place)
    returns (p': Place)
    requires IsFile(env, cs, f) && StandsAt(cs, s, p)
    ensures p.InChunk? ==> p.j <= |cs|
    ensures var (s', r) := SeekBack(env, cb, f, s); StepsTo(cs, s, IndexOf(cs, p), s', r, p')
  {
    hide IsFile, SeekBackFrom, ReaderSpec.Seek, Start, IsPossibleChunkBoundary, IsDataChunk, RecordlessBetween;
    FileFacts(env, cs, f);
    hide PrefixOfFile, WholeFile;
    p' := p;
    if p.InChunk? {
      if p.k > 0 {
        SeekDataChunk(env, cb, cs, f, s, p.j, p.k - 1);
        p' := InChunk(p.j, p.k - 1, p.j + 1);
      } else {
        p' := SeekBackFromChunk(env, cb, cs, f, s, p.j);
      }
    } else {
      BeginningHasNothingBefore(env, cb, f, s);
    }
  }

  lemma BeginningHasNothingBefore(env: Env, cb: Option<Callback>, f: Bytes, s: Reader)
    requires s.currentChunkBegin < FIRST_CHUNK && s.currentRecordIndex == 0
    ensures SeekBack(env, cb, f, s) == (s, NoPrevious)
  {
  }

  /** `n` reads in a row, then `k` steps back. */
  function StepsBack(env: Env, cb: Option<Callback>, f: Bytes, s: Reader, k: nat): (Reader, seq<SeekBackResult>)
    decreases k
  {
    if k == 0 then (s, [])
    else
      var (s1, r) := SeekBack(env, cb, f, s);
      var (s2, rs) := StepsBack(env, cb, f, s1, k - 1);
      (s2, [r] + rs)
  }

  lemma {:induction false} ReadsFrom(env: Env, cb: Option<Callback>, cs: seq<ChunkDesc>, f: Bytes, s: Reader, p: Place,
                                     n: nat)
    returns (p': Place)
    requires IsFile(env, cs, f) && StandsAt(cs, s, p) && (p.InChunk? ==> p.j <= |cs|)
    requires IndexOf(cs, p) + n <= |RecordsFrom(cs, 0)|
    ensures var (s', rs) := Recovery.Run(env, cb, f, s, n);
      StandsAt(cs, s', p') && (p'.InChunk? ==> p'.j <= |cs|) && IndexOf(cs, p') == IndexOf(cs, p) + n
    decreases n
  {
    hide IsFile, ReadRecord, StandsAt, IndexOf;
    p' := p;
    if n > 0 {
      var (s1, r) := ReadRecord(env, cb, f, s);
      var p1 := ReadThere(env, cb, cs, f, s, p);
      PlaceIsInFile(cs, s1, p1);
      p' := ReadsFrom(env, cb, cs, f, s1, p1, n - 1);
    }
  }

  lemma PlaceIsInFile(cs: seq<ChunkDesc>, s: Reader, p: Place)
    requires StandsAt(cs, s, p)
    ensures p.InChunk? ==> p.j <= |cs|
  {
  }

  lemma {:induction false} StepsBackFrom(env: Env, cb: Option<Callback>, cs: seq<ChunkDesc>, f: Bytes, s: Reader,
                                         p: Place, k: nat)
    returns (p': Place)
    requires IsFile(env, cs, f) && StandsAt(cs, s, p) && (p.InChunk? ==> p.j <= |cs|) && k <= IndexOf(cs, p)
    ensures var (s', rs) := StepsBack(env, cb, f, s, k);
      && StandsAt(cs, s', p') && (p'.InChunk? ==> p'.j <= |cs|) && IndexOf(cs, p') == IndexOf(cs, p) - k
      && |rs| == k && forall i | 0 <= i < k :: rs[i] == SteppedBack
    decreases k
  {
    hide IsFile, SeekBack, StandsAt, IndexOf;
    p' := p;
    if k > 0 {
      var (s1, r) := SeekBack(env, cb, f, s);
      var p1 := StepBackThere(env, cb, cs, f, s, p);
      PlaceIsInFile(cs, s1, p1);
      p' := StepsBackFrom(env, cb, cs, f, s1, p1, k - 1);
    }
  }

  /**
   After `n` reads of a written file, exactly `n` steps back succeed. After `k` of them the next
   read returns record `n - k`, so they visit the records in reverse, across chunks and over
   chunks without records; the one after the last finds nothing and changes nothing.
   */
  lemma SteppingBackUndoesReading(env: Env, cb: Option<Callback>, cs: seq<ChunkDesc>, f: Bytes, n: nat, k: nat,
                                  s: Reader, s': Reader, rs: seq<SeekBackResult>)
    requires IsFile(env, cs, f) && k <= n <= |RecordsFrom(cs, 0)|
    requires s == Recovery.Run(env, cb, f, Initial(f), n).0
    requires (s', rs) == StepsBack(env, cb, f, s, k)
    ensures Open(env.h, cb, f) == Some(Initial(f))
    ensures |rs| == k && forall i | 0 <= i < k :: rs[i] == SteppedBack
    ensures k > 0 ==> ReadRecord(env, cb, f, s').1 == GotRecord(RecordsFrom(cs, 0)[n - k])
    ensures k == n ==> SeekBack(env, cb, f, s') == (s', NoPrevious)
  {
    hide IsFile, StandsAt, IndexOf, Open, Initial, Recovery.Run, StepsBack, ReadRecord, SeekBack, RecordsFrom;
    OpensAtBeginning(env, cb, cs, f);
    var p := ReadsFrom(env, cb, cs, f, Initial(f), Beginning(1), n);
    var p' := StepsBackFrom(env, cb, cs, f, s, p, k);
    WhatComesNext(env, cb, cs, f, s', p');
  }

  /** From a place, forwards and backwards. */
  lemma WhatComesNext(env: Env, cb: Option<Callback>, cs: seq<ChunkDesc>, f: Bytes, s: Reader, p: Place)
    requires IsFile(env, cs, f) && StandsAt(cs, s, p) && (p.InChunk? ==> p.j <= |cs|)
    ensures IndexOf(cs, p) < |RecordsFrom(cs, 0)| ==>
      ReadRecord(env, cb, f, s).1 == GotRecord(RecordsFrom(cs, 0)[IndexOf(cs, p)])
    ensures IndexOf(cs, p) == 0 ==> SeekBack(env, cb, f, s) == (s, NoPrevious)
  {
    hide IsFile, StandsAt, IndexOf, ReadRecord, SeekBack, RecordsFrom;
    var p' := ReadThere(env, cb, cs, f, s, p);
    var p'' := StepBackThere(env, cb, cs, f, s, p);
  }

  lemma OpensAtBeginning(env: Env, cb: Option<Callback>, cs: seq<ChunkDesc>, f: Bytes)
    requires IsFile(env, cs, f)
    ensures Open(env.h, cb, f) == Some(Initial(f))
    ensures StandsAt(cs, Initial(f), Beginning(1)) && IndexOf(cs, Beginning(1)) == 0
  {
    FileFacts(env, cs, f);
    PreambleOfFile(env, cs, f);
    Recovery.OpenIntact(env.h, cb, f);
    hide Start, Open, PreambleIsIntact, IsPossibleChunkBoundary, FileImage;
  }
}
