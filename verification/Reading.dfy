/**
 Reading a file that was written: the records come back in order and then the end of the
 file. A reader without a callback, shown any growing prefix of the file, never returns
 anything else and never passes over a chunk.
 */
module Reading {
  import opened Bytes
  import opened BlockArithmetic
  import opened ChunkParsing
  import opened Layout
  import opened StoredChunks
  import opened Files
  import opened ReaderSpec
  import Recovery

  /** `f` is a prefix of the file the chunks make, perhaps all of it. */
  ghost predicate PrefixOfFile(env: Env, cs: seq<ChunkDesc>, f: Bytes) {
    && WellFormedFile(env, cs) && Start(cs, |cs|) < TWO_64
    && f <= FileImage(env.h, cs)
  }

  predicate WholeFile(cs: seq<ChunkDesc>, f: Bytes) { |f| == Start(cs, |cs|) }

  lemma ChunkIsStoredSoFar(env: Env, cs: seq<ChunkDesc>, f: Bytes, i: nat)
    requires PrefixOfFile(env, cs, f) && i < |cs|
    ensures StoredSoFar(env.h, f, Start(cs, i), cs[i]) && WellFormed(env, cs[i])
    ensures End(Start(cs, i), cs[i]) == Start(cs, i + 1) <= Start(cs, |cs|)
    ensures IsPossibleChunkBoundary(Start(cs, i))
  {
    hide WellFormed, ByteAt, End, FileImage, IsPossibleChunkBoundary;
    ChunksAreStored(env.h, cs, i);
    StartMonotone(cs, i + 1, |cs|);
    var whole := FileImage(env.h, cs);
    PrefixStoresSoFar(env.h, whole, |f|, Start(cs, i), cs[i]);
    assert whole[..|f|] == f;
  }

  /** What a chunk of the file parses to, depending on how much of it is there. */
  lemma ChunkOfFileParses(env: Env, cs: seq<ChunkDesc>, f: Bytes, i: nat)
    requires PrefixOfFile(env, cs, f) && i < |cs|
    ensures var b := Start(cs, i);
      ParseChunkAt(env, f, b) ==
        if |f| <= b then ParseEof
        else if FullyVisible(f, b, cs[i]) then Expected(b, cs[i])
        else ParseUntrusted
    ensures !IsDataChunk(cs[i]) ==> cs[i].records == []
    ensures Start(cs, i + 1) <= |f| ==> |f| > Start(cs, i) && FullyVisible(f, Start(cs, i), cs[i])
  {
    ChunkIsStoredSoFar(env, cs, f, i);
    hide WellFormed, StoredSoFar, End, IsPossibleChunkBoundary, DataEnd, ParseChunkAt;
    StoredChunkParses(env, f, Start(cs, i), cs[i]);
    StoredIsSized(env, f, Start(cs, i), cs[i]);
    WellFormedClassifies(env, Start(cs, i), cs[i]);
    EndFacts(Start(cs, i), cs[i]);
  }

  lemma EndOfWrittenFile(env: Env, cs: seq<ChunkDesc>, f: Bytes)
    requires PrefixOfFile(env, cs, f)
    ensures |f| <= Start(cs, |cs|) && ParseChunkAt(env, f, Start(cs, |cs|)) == ParseEof
  {
    hide ParseChunkAt, IsPossibleChunkBoundary;
    ParseExtent(env, f, Start(cs, |cs|));
    CanonicalFacts(Start(cs, |cs|));
  }

  ghost predicate RecordlessBetween(cs: seq<ChunkDesc>, i: nat, j: nat)
    requires i <= j <= |cs|
  {
    forall k | i <= k < j :: cs[k].records == []
  }

  /** What loading from the start of chunk `i` finds: everything between there and chunk `j` holds no records. */
  ghost predicate LoadsFrom(env: Env, cs: seq<ChunkDesc>, f: Bytes, i: nat, j: nat) {
    && i <= j <= |cs| && RecordlessBetween(cs, i, j)
    && match LoadFrom(env, f, Start(cs, i))
       case Loaded(b, e, records) =>
         j < |cs| && b == Start(cs, j) && e == Start(cs, j + 1) && records == cs[j].records && IsDataChunk(cs[j])
       case LoadEof(at) => at == Start(cs, j) && (WholeFile(cs, f) ==> j == |cs|)
       case LoadFailed(at, trusted) => at == Start(cs, j) && trusted == None && !WholeFile(cs, f)
  }

  lemma {:induction false} LoadOfFile(env: Env, cs: seq<ChunkDesc>, f: Bytes, i: nat) returns (j: nat)
    requires PrefixOfFile(env, cs, f) && i <= |cs|
    ensures LoadsFrom(env, cs, f, i, j)
    decreases |cs| - i
  {
    hide ParseChunkAt, WellFormedFile, IsPossibleChunkBoundary, End, IsDataChunk, FileImage;
    j := i;
    if i == |cs| {
      EndOfWrittenFile(env, cs, f);
    } else {
      ChunkOfFileParses(env, cs, f, i);
      StartMonotone(cs, i + 1, |cs|);
      ChunkEndIsNextStart(cs, i);
      ParseExtent(env, f, Start(cs, i));
      if ParseChunkAt(env, f, Start(cs, i)).ParseSkip? {
        j := LoadOfFile(env, cs, f, i + 1);
      }
    }
  }

  lemma ChunkEndIsNextStart(cs: seq<ChunkDesc>, i: nat)
    requires i < |cs|
    ensures End(Start(cs, i), cs[i]) == Start(cs, i + 1)
  {
  }

  // ---------------------------------------------------------------- where a reader stands

  /** The next chunk to load is chunk `i`, and what the decoder still holds comes before its records. */
  ghost predicate Tracks(cs: seq<ChunkDesc>, s: Reader, i: nat) {
    i <= |cs| && s.nextChunkFilePos == Start(cs, i)
  }

  /** The records a reader standing there has yet to return. */
  function Unread(cs: seq<ChunkDesc>, s: Reader, i: nat): seq<Bytes>
    requires i <= |cs|
  {
    Recovery.PendingRecords(s) + RecordsFrom(cs, i)
  }

  lemma {:induction false} RecordlessRecords(cs: seq<ChunkDesc>, i: nat, j: nat)
    requires i <= j <= |cs| && RecordlessBetween(cs, i, j)
    ensures RecordsFrom(cs, i) == RecordsFrom(cs, j)
    decreases j - i
  {
    if i < j {
      RecordlessRecords(cs, i + 1, j);
    }
  }

  /**
   One call returns the first unread record or nothing; it never passes over a record, and on the whole file
   it never fails.
   */
  ghost predicate ReadsOn(cs: seq<ChunkDesc>, f: Bytes, s: Reader, i: nat, s': Reader, r: ReadResult, i': nat) {
    && i <= i' && i <= |cs| && Tracks(cs, s', i') && s'.log == s.log
    && (r.GotRecord? ==> Unread(cs, s, i) == [r.record] + Unread(cs, s', i'))
    && (!r.GotRecord? ==> Unread(cs, s, i) == Unread(cs, s', i'))
    && (WholeFile(cs, f) ==> !r.ReadError? && (r.EndOfFile? <==> Unread(cs, s, i) == []))
  }

  lemma TakeKeepsReading(env: Env, cb: Option<Callback>, cs: seq<ChunkDesc>, f: Bytes, s: Reader, i: nat)
    requires Tracks(cs, s, i) && s.decoder.Some? && s.decoder.value.HasNext()
    ensures var (s', r) := ReadRecord(env, cb, f, s); ReadsOn(cs, f, s, i, s', r, i)
  {
    hide IsPossibleChunkBoundary, Start;
    var d := s.decoder.value;
    assert d.records[d.next..] == [d.records[d.next]] + d.records[d.next + 1..];
  }

  lemma UnreadAfterLoad(cs: seq<ChunkDesc>, s: Reader, i: nat, j: nat, b: nat, s0: Reader, s1: Reader)
    requires i <= j < |cs| && RecordlessBetween(cs, i, j)
    requires !(s.decoder.Some? && s.decoder.value.HasNext())
    requires s0.log == s.log && s1 == AfterLoad(s0, b, Start(cs, j + 1), cs[j].records)
    ensures Tracks(cs, s1, j + 1) && s1.log == s.log && Unread(cs, s1, j + 1) == Unread(cs, s, i)
  {
    RecordlessRecords(cs, i, j);
    assert Recovery.PendingRecords(s1) == cs[j].records;
    assert RecordsFrom(cs, j) == cs[j].records + RecordsFrom(cs, j + 1);
  }

  lemma ReadsOnFrom(cs: seq<ChunkDesc>, f: Bytes, s: Reader, i: nat, s1: Reader, i1: nat, s': Reader, r: ReadResult,
                    i': nat)
    requires i <= i1 && i1 <= |cs| && s1.log == s.log && Unread(cs, s1, i1) == Unread(cs, s, i)
    requires ReadsOn(cs, f, s1, i1, s', r, i')
    ensures ReadsOn(cs, f, s, i, s', r, i')
  {
    hide Unread, Tracks;
  }

  lemma StopsReading(cs: seq<ChunkDesc>, f: Bytes, s: Reader, i: nat, j: nat, s': Reader, r: ReadResult)
    requires i <= j <= |cs| && RecordlessBetween(cs, i, j) && (WholeFile(cs, f) ==> j == |cs| && r == EndOfFile)
    requires !(s.decoder.Some? && s.decoder.value.HasNext()) && s'.decoder.None? && s'.log == s.log
    requires s'.nextChunkFilePos == Start(cs, j) && !r.GotRecord?
    ensures ReadsOn(cs, f, s, i, s', r, j)
  {
    hide WholeFile;
    RecordlessRecords(cs, i, j);
  }

  lemma {:induction false} ReadRecordOfFile(env: Env, cb: Option<Callback>, cs: seq<ChunkDesc>, f: Bytes, s: Reader,
                                            i: nat)
    returns (i': nat)
    requires PrefixOfFile(env, cs, f) && Tracks(cs, s, i)
    requires cb.None? || WholeFile(cs, f)
    ensures var (s', r) := ReadRecord(env, cb, f, s); ReadsOn(cs, f, s, i, s', r, i')
    decreases Gap(f, s.nextChunkFilePos)
  {
    hide ReadRecord, LoadFrom, Gap, PrefixOfFile, Start, IsPossibleChunkBoundary, ReadsOn, Unread, TryRecover,
         RecordlessBetween, WholeFile, LengthAfterLoad;
    if s.decoder.Some? && s.decoder.value.HasNext() {
      TakeKeepsReading(env, cb, cs, f, s, i);
      i' := i;
    } else {
      var (s', r) := ReadRecord(env, cb, f, s);
      ReadRecordLoads(env, cb, f, s);
      var s0 := AtRest(env, f, s);
      var j := LoadOfFile(env, cs, f, i);
      Recovery.LoadDecreases(env, f, s.nextChunkFilePos);
      match LoadFrom(env, f, s.nextChunkFilePos) {
        case Loaded(b, e, records) =>
          var s1 := AfterLoad(s0, b, e, records);
          UnreadAfterLoad(cs, s, i, j, b, s0, s1);
          i' := ReadRecordOfFile(env, cb, cs, f, s1, j + 1);
          ReadsOnFrom(cs, f, s, i, s1, j + 1, s', r, i');
        case LoadEof(at) =>
          i' := j;
          StopsReading(cs, f, s, i, j, s', r);
        case LoadFailed(at, trusted) =>
          i' := j;
          StopsReading(cs, f, s, i, j, s', r);
      }
    }
  }

  // ---------------------------------------------------------------- the whole file

  lemma HeaderAtFileStart(f: Bytes)
    requires |f| >= 64
    ensures ReadEnd(0, CHUNK_HEADER_SIZE) == 64 && ReadBytes(f, 0, 0, CHUNK_HEADER_SIZE) == f[24..64]
  {
    assert ReadEnd(0, CHUNK_HEADER_SIZE) == 64;
    var s, t := ReadBytes(f, 0, 0, CHUNK_HEADER_SIZE), f[24..64];
    forall k | 0 <= k < CHUNK_HEADER_SIZE
      ensures s[k] == t[k]
    {
      assert ReadPos(0, 0 + k) == 24 + k;
    }
  }

  lemma SignatureSize()
    ensures DataEnd(0, SIGNATURE) == 64
  {
    assert Advance(0, 40) == 64;
  }

  lemma PreambleOfFile(env: Env, cs: seq<ChunkDesc>, f: Bytes)
    requires PrefixOfFile(env, cs, f) && |f| >= FIRST_CHUNK
    ensures PreambleIsIntact(env.h, f)
    ensures Start(cs, 1) == FIRST_CHUNK
  {
    SignatureEnds(cs);
    ChunkIsStoredSoFar(env, cs, f, 0);
    hide StoredSoFar, WellFormed, FileImage, ReadEnd, ReadBytes, DataEnd;
    SignatureSize();
    StoredBlockHeader(env.h, f, 0, SIGNATURE, 0);
    HeaderAtFileStart(f);
    StoredHeader(env.h, f, 0, SIGNATURE);
    assert SignatureHeaderBytes(env.h) == HeaderOf(env.h, SIGNATURE).ToBytes();
  }

  /** A freshly opened reader has everything still to read. */
  lemma InitialTracks(env: Env, cs: seq<ChunkDesc>, f: Bytes, part: Bytes)
    requires PrefixOfFile(env, cs, f) && |f| >= FIRST_CHUNK
    ensures |cs| > 0 && Tracks(cs, Initial(part), 1)
    ensures Unread(cs, Initial(part), 1) == RecordsFrom(cs, 0)
  {
    PreambleOfFile(env, cs, f);
    hide Start, PrefixOfFile, IsPossibleChunkBoundary;
    SignatureHasNoRecords(env, cs, f);
  }

  lemma SignatureHasNoRecords(env: Env, cs: seq<ChunkDesc>, f: Bytes)
    requires PrefixOfFile(env, cs, f)
    ensures |cs| > 0 && RecordsFrom(cs, 0) == RecordsFrom(cs, 1)
  {
  }

  lemma {:induction false} RunOfFile(env: Env, cb: Option<Callback>, cs: seq<ChunkDesc>, f: Bytes, s: Reader, i: nat,
                                     n: nat)
    requires PrefixOfFile(env, cs, f) && WholeFile(cs, f) && Tracks(cs, s, i)
    requires n == |Unread(cs, s, i)| + 1
    ensures var (s', rs) := Recovery.Run(env, cb, f, s, n);
      && |rs| == n && rs[n - 1].EndOfFile? && Recovery.Delivered(rs) == Unread(cs, s, i) && s'.log == s.log
      && forall k | 0 <= k < n - 1 :: rs[k] == GotRecord(Unread(cs, s, i)[k])
    decreases n
  {
    hide ReadRecord, PrefixOfFile, WholeFile;
    var (s1, r) := ReadRecord(env, cb, f, s);
    var i1 := ReadRecordOfFile(env, cb, cs, f, s, i);
    FactsOfReadsOn(cs, f, s, i, s1, r, i1);
    if n > 1 {
      RunOfFile(env, cb, cs, f, s1, i1, n - 1);
      var (_, rs) := Recovery.Run(env, cb, f, s1, n - 1);
      assert ([r] + rs)[1..] == rs;
    } else {
      assert Recovery.Run(env, cb, f, s1, 0) == (s1, []);
      assert [r][1..] == [];
    }
  }

  lemma FactsOfReadsOn(cs: seq<ChunkDesc>, f: Bytes, s: Reader, i: nat, s': Reader, r: ReadResult, i': nat)
    requires ReadsOn(cs, f, s, i, s', r, i') && WholeFile(cs, f)
    ensures if Unread(cs, s, i) == [] then r.EndOfFile?
      else r == GotRecord(Unread(cs, s, i)[0]) && Unread(cs, s', i') == Unread(cs, s, i)[1..]
  {
    hide Unread;
  }

  /**
   Draining a written file returns exactly its records, in order, then a clean end of file,
   with or without a recovery callback; the callback is never called.
   */
  lemma WrittenFileReadsBack(env: Env, cb: Option<Callback>, cs: seq<ChunkDesc>, f: Bytes, n: nat)
    requires WellFormedFile(env, cs) && Start(cs, |cs|) < TWO_64 && f == FileImage(env.h, cs)
    requires n == |RecordsFrom(cs, 0)|
    ensures Open(env.h, cb, f) == Some(Initial(f))
    ensures var (s, rs) := Recovery.Run(env, cb, f, Initial(f), n + 1);
      && |rs| == n + 1 && s.log == []
      && (forall k | 0 <= k < n :: rs[k] == GotRecord(RecordsFrom(cs, 0)[k]))
      && rs[n] == EndOfFile
  {
    hide WellFormedFile, FileImage, RecordsFrom, PreambleIsIntact, IsPossibleChunkBoundary;
    WholeFileIsLong(env, cs);
    PreambleOfFile(env, cs, f);
    Recovery.OpenIntact(env.h, cb, f);
    InitialTracks(env, cs, f, f);
    hide Start, Open;
    RunOfFile(env, cb, cs, f, Initial(f), 1, n + 1);
  }

  /** So reading a written file until there is nothing more gives its records. */
  lemma WrittenFileIsAllRead(env: Env, cb: Option<Callback>, cs: seq<ChunkDesc>, f: Bytes)
    requires WellFormedFile(env, cs) && Start(cs, |cs|) < TWO_64 && f == FileImage(env.h, cs)
    ensures var d := Recovery.ReadAll(env, cb, f, Initial(f));
      d.records == RecordsFrom(cs, 0) && d.last == EndOfFile && d.reader.log == []
  {
    hide WellFormedFile, FileImage, RecordsFrom, Start, Open, Recovery.Run, Recovery.ReadAll, Initial;
    var d, all := Recovery.ReadAll(env, cb, f, Initial(f)), RecordsFrom(cs, 0);
    Recovery.ReadAllIsRun(env, cb, f, Initial(f));
    WrittenFileReadsBack(env, cb, cs, f, |all|);
    var (_, got) := Recovery.Run(env, cb, f, Initial(f), |d.records| + 1);
    var (_, want) := Recovery.Run(env, cb, f, Initial(f), |all| + 1);
    if |d.records| <= |all| {
      Recovery.RunPrefix(env, cb, f, Initial(f), |d.records| + 1, |all| + 1);
      assert got[|d.records|] == want[|d.records|];
      assert forall k | 0 <= k < |d.records| :: got[k] == want[k];
    } else {
      Recovery.RunPrefix(env, cb, f, Initial(f), |all| + 1, |d.records| + 1);
    }
  }

  lemma WholeFileIsLong(env: Env, cs: seq<ChunkDesc>)
    requires WellFormedFile(env, cs)
    ensures |FileImage(env.h, cs)| == Start(cs, |cs|) >= FIRST_CHUNK
  {
    SignatureEnds(cs);
    StartMonotone(cs, 1, |cs|);
  }

  // ---------------------------------------------------------------- growing prefixes

  /** Calls without a callback, call `k` seeing the first `lengths[k]` bytes of the file. */
  function TailRun(env: Env, whole: Bytes, s: Reader, lengths: seq<nat>): (Reader, seq<ReadResult>)
    requires forall k | 0 <= k < |lengths| :: lengths[k] <= |whole|
    decreases |lengths|
  {
    if lengths == [] then (s, [])
    else
      var (s1, r) := ReadRecord(env, None, whole[..lengths[0]], s);
      var (s2, rs) := TailRun(env, whole, s1, lengths[1..]);
      (s2, [r] + rs)
  }

  lemma DeliveredFirst(r: ReadResult, rs: seq<ReadResult>)
    ensures Recovery.Delivered([r] + rs) == (if r.GotRecord? then [r.record] else []) + Recovery.Delivered(rs)
  {
    assert ([r] + rs)[1..] == rs;
  }

  lemma {:induction false} TailRunReadsOn(env: Env, cs: seq<ChunkDesc>, s: Reader, i: nat, lengths: seq<nat>)
    returns (i': nat)
    requires WellFormedFile(env, cs) && Start(cs, |cs|) < TWO_64 && Tracks(cs, s, i)
    requires forall k | 0 <= k < |lengths| :: lengths[k] <= |FileImage(env.h, cs)|
    ensures var (s', rs) := TailRun(env, FileImage(env.h, cs), s, lengths);
      && Tracks(cs, s', i')
      && Recovery.Delivered(rs) + Unread(cs, s', i') == Unread(cs, s, i)
    decreases |lengths|
  {
    hide ReadRecord, WellFormedFile, FileImage, Unread, Tracks, WholeFile;
    var whole := FileImage(env.h, cs);
    i' := i;
    if lengths != [] {
      var f := whole[..lengths[0]];
      var (s1, r) := ReadRecord(env, None, f, s);
      assert PrefixOfFile(env, cs, f);
      var i1 := ReadRecordOfFile(env, None, cs, f, s, i);
      i' := TailRunReadsOn(env, cs, s1, i1, lengths[1..]);
      var (_, rs) := TailRun(env, whole, s1, lengths[1..]);
      DeliveredFirst(r, rs);
    }
  }

  /**
   A reader without a callback over a growing file, opened on one prefix of it and each call
   seeing another. It opens on nothing at all and on any prefix that holds the preamble. What it
   has returned is always a prefix of the file's records, whatever errors and ends of file it
   met on the way; and once the whole file is visible, as many further calls as there are
   records left return the rest.
   */
  lemma GrowingFileLosesNothing(env: Env, cs: seq<ChunkDesc>, shown: nat, lengths: seq<nat>, n: nat)
    requires WellFormedFile(env, cs) && Start(cs, |cs|) < TWO_64
    requires shown <= |FileImage(env.h, cs)|
    requires forall k | 0 <= k < |lengths| :: lengths[k] <= |FileImage(env.h, cs)|
    ensures var part := FileImage(env.h, cs)[..shown];
      Open(env.h, None, part) == if 0 < shown < FIRST_CHUNK then None else Some(Initial(part))
    ensures var whole := FileImage(env.h, cs);
      var (s, rs) := TailRun(env, whole, Initial(whole[..shown]), lengths);
      && Recovery.Delivered(rs) <= RecordsFrom(cs, 0)
      && (n == |RecordsFrom(cs, 0)| - |Recovery.Delivered(rs)| ==>
            var (_, rest) := Recovery.Run(env, None, whole, s, n + 1);
            Recovery.Delivered(rs) + Recovery.Delivered(rest) == RecordsFrom(cs, 0)
            && rest != [] && rest[|rest| - 1].EndOfFile?)
  {
    hide WellFormedFile, FileImage, Unread, Tracks, TailRun, Start, IsPossibleChunkBoundary, RecordsFrom, Open, Initial,
         Recovery.Run, Recovery.Delivered;
    OpensOnPrefix(env, cs, shown);
    var whole := FileImage(env.h, cs);
    WholeFileIsLong(env, cs);
    InitialTracks(env, cs, whole, whole[..shown]);
    var start := Initial(whole[..shown]);
    var i' := TailRunReadsOn(env, cs, start, 1, lengths);
    var (s, rs) := TailRun(env, whole, start, lengths);
    if n == |RecordsFrom(cs, 0)| - |Recovery.Delivered(rs)| {
      RunOfFile(env, None, cs, whole, s, i', n + 1);
    }
  }

  lemma OpensOnPrefix(env: Env, cs: seq<ChunkDesc>, shown: nat)
    requires WellFormedFile(env, cs) && Start(cs, |cs|) < TWO_64 && shown <= |FileImage(env.h, cs)|
    ensures var part := FileImage(env.h, cs)[..shown];
      Open(env.h, None, part) == if 0 < shown < FIRST_CHUNK then None else Some(Initial(part))
  {
    hide WellFormedFile, FileImage, Start, ValidBlockHeaderAt, SignatureHeaderBytes;
    var part := FileImage(env.h, cs)[..shown];
    if shown >= FIRST_CHUNK {
      assert PrefixOfFile(env, cs, part);
      PreambleOfFile(env, cs, part);
    }
  }
}
