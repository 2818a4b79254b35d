/**
 Reading arbitrary bytes with a recovery callback: whatever the bytes and whatever the
 callback answers, draining ends, the reported regions are nonempty, disjoint and increasing,
 and no more records come out than the file has bytes. What is delivered does not depend on
 the verdicts.
 */
module Recovery {
  import opened Bytes
  import opened BlockArithmetic
  import opened ChunkParsing
  import opened ReaderSpec

  // ---------------------------------------------------------------- safety

  /** Where a forward reader may stand: where a chunk can start, or at the end of the file. */
  predicate LegalCursor(f: Bytes, pos: nat) { IsPossibleChunkBoundary(pos) || |f| <= pos }

  ghost predicate RegionsOrdered(log: seq<Region>) {
    && (forall i | 0 <= i < |log| :: log[i].begin < log[i].end)
    && (forall i, j | 0 <= i < j < |log| :: log[i].end <= log[j].begin)
  }

  function PendingRecords(s: Reader): seq<Bytes> {
    if s.decoder.Some? && s.decoder.value.HasNext() then s.decoder.value.records[s.decoder.value.next..] else []
  }

  /** The invariant of every forward run; `delivered` counts the records returned so far. */
  ghost predicate Sound(f: Bytes, s: Reader, delivered: nat) {
    && s.streamLen == |f|
    && LegalCursor(f, s.nextChunkFilePos)
    && RegionsOrdered(s.log)
    && (s.log != [] ==> s.log[|s.log| - 1].end <= s.nextChunkFilePos)
    && delivered + |PendingRecords(s)| <= Min(s.nextChunkFilePos, |f|)
  }

  lemma LegalIsCanonical(f: Bytes, pos: nat)
    requires LegalCursor(f, pos)
    ensures CanonicalChunkAddress(pos) == pos || |f| <= pos <= CanonicalChunkAddress(pos) + BLOCK_HEADER_SIZE
  {
    CanonicalFacts(pos);
  }

  lemma {:induction false} LoadKeepsLegal(env: Env, f: Bytes, pos: nat)
    requires LegalCursor(f, pos)
    ensures var r := LoadFrom(env, f, pos);
      && (r.Loaded? ==> pos <= r.begin && r.begin + |r.records| <= r.end && r.begin + |r.records| <= |f|
                        && IsPossibleChunkBoundary(r.end))
      && (r.LoadEof? ==> pos <= r.at && LegalCursor(f, r.at))
      && (r.LoadFailed? ==> pos <= r.at && LegalCursor(f, r.at))
      && (r.LoadFailed? && r.trustedEnd.Some? ==>
           r.at < r.trustedEnd.value && IsPossibleChunkBoundary(r.trustedEnd.value))
    decreases Gap(f, pos)
  {
    hide ParseChunkAt, CanonicalChunkAddress, IsPossibleChunkBoundary;
    ParseExtent(env, f, pos);
    LegalIsCanonical(f, pos);
    if ParseChunkAt(env, f, pos).ParseSkip? {
      LoadKeepsLegal(env, f, ParseChunkAt(env, f, pos).e);
    }
  }

  /** The next boundary after a region's begin lies past the failure that opened it. */
  lemma BoundaryAfterFailure(at: nat, previousEnd: Option<nat>)
    ensures RegionBegin(at, previousEnd) <= at < BoundaryAfter(RegionBegin(at, previousEnd))
    ensures previousEnd.Some? && previousEnd.value <= at ==> previousEnd.value <= RegionBegin(at, previousEnd)
  {
  }

  /** A region starts no earlier than the one before it ended and ends where reading may resume. */
  lemma RegionIsLegal(h: Hash, f: Bytes, at: nat, trustedEnd: Option<nat>, previousEnd: Option<nat>)
    requires LegalCursor(f, at)
    requires trustedEnd.Some? ==> at < trustedEnd.value && IsPossibleChunkBoundary(trustedEnd.value)
    requires previousEnd.Some? ==> previousEnd.value <= at
    ensures var r := RegionFor(h, f, |f|, at, trustedEnd, previousEnd);
      && LegalCursor(f, r.end) && r.begin <= at < r.end
      && (previousEnd.Some? ==> previousEnd.value <= r.begin)
      && (trustedEnd.Some? ==> r.end == trustedEnd.value)
  {
    BoundaryAfterFailure(at, previousEnd);
    hide RegionBegin, BoundaryAfter, Resync, IsPossibleChunkBoundary, CanonicalChunkAddress;
    var r := RegionFor(h, f, |f|, at, trustedEnd, previousEnd);
    CanonicalFacts(r.end);
    CanonicalFacts(r.end - 1);
    if trustedEnd.Some? {
      CanonicalFacts(trustedEnd.value);
    } else {
      var resync := Resync(h, f, |f|, BoundaryAfter(r.begin));
      CanonicalFacts(resync);
    }
  }

  /**
   Where the next chunk is looked for on any bytes: a block header that is not valid says
   nothing, and one whose pointer leads into a block header is not believed; then the walk goes
   on at the next boundary not before the place it would have led to.
   */
  lemma ResyncPassesOver(h: Hash, f: Bytes, len: nat, q: nat, next: nat)
    requires IsBlockBoundary(q) && q + BLOCK_HEADER_SIZE <= |f| && IsBlockBoundary(next)
    requires var at := if ValidBlockHeaderAt(h, f, q) then q + BlockHeaderAt(f, q).nextChunk else q + 1;
      && at <= next < at + BLOCK_SIZE
      && (ValidBlockHeaderAt(h, f, q) ==>
            BlockHeaderAt(f, q).previousChunk > 0 && at <= len && !IsPossibleChunkBoundary(at))
    ensures Resync(h, f, len, q) == Resync(h, f, len, next)
  {
    hide ValidBlockHeaderAt, BlockHeaderAt;
    if ValidBlockHeaderAt(h, f, q) {
      NextAfter(q + BlockHeaderAt(f, q).nextChunk, next);
    } else {
      NextAfter(q + 1, next);
    }
  }

  lemma NextAfter(at: nat, next: nat)
    requires IsBlockBoundary(next) && at <= next < at + BLOCK_SIZE
    ensures next == NextBlockBoundary(at)
    ensures at > 0 && IsBlockBoundary(at - 1) ==> next == at - 1 + BLOCK_SIZE
  {
    var n := next / BLOCK_SIZE;
    assert next == BLOCK_SIZE * n;
  }

  /** However little of the stream was known, an untrusted region ends where that ended or just behind the failure. */
  lemma RegionIsNear(h: Hash, f: Bytes, len: nat, at: nat, previousEnd: Option<nat>)
    ensures RegionFor(h, f, len, at, None, previousEnd).end <= Max(len, at + 1) + 1
  {
    hide Resync;
    CanonicalFacts(at);
  }

  /**
   However short the stream was when it was last measured, a chunk is only accepted once the
   stream is known to be long enough for the records it claims.
   */
  lemma {:induction false} LoadedIsKnownToFit(env: Env, f: Bytes, len: nat, pos: nat)
    ensures var r, known := LoadFrom(env, f, pos), LengthAfterLoad(env, f, len, pos);
      && (known == len || known == |f|)
      && (r.Loaded? && r.records != [] ==> r.begin + |r.records| <= known)
    decreases Gap(f, pos)
  {
    hide ParseChunkAt, LengthAfterHeader;
    ParseExtent(env, f, pos);
    CanonicalFacts(pos);
    var p := ParseChunkAt(env, f, pos);
    if p.ParseSkip? {
      LoadedIsKnownToFit(env, f, LengthAfterHeader(env.h, f, len, pos), p.e);
    } else if p.ParseData? {
      ParsedIsKnownToFit(env, f, len, pos);
    }
  }

  lemma ParsedIsKnownToFit(env: Env, f: Bytes, len: nat, pos: nat)
    requires ParseChunkAt(env, f, pos).ParseData?
    ensures var p := ParseChunkAt(env, f, pos);
      p.records != [] ==> p.b + |p.records| <= LengthAfterHeader(env.h, f, len, pos)
  {
    hide ReadEnd, ReadBytes, ReadDataAt, PointsBack, Agrees, NextBlockBoundary, ChunkEnd, CanonicalChunkAddress,
         DecodeRecords;
    ParseExtent(env, f, pos);
    ReadEndMonotone(CanonicalChunkAddress(pos), 0, CHUNK_HEADER_SIZE);
  }

  lemma SoundAfterLoad(env: Env, f: Bytes, s: Reader, delivered: nat)
    requires Sound(f, s, delivered)
    requires LoadFrom(env, f, s.nextChunkFilePos).Loaded?
    ensures var r := LoadFrom(env, f, s.nextChunkFilePos);
      Sound(f, AfterLoad(s.(decoder := None), r.begin, r.end, r.records), delivered)
  {
    hide LoadFrom, IsPossibleChunkBoundary;
    LoadKeepsLegal(env, f, s.nextChunkFilePos);
    var r := LoadFrom(env, f, s.nextChunkFilePos);
    assert PendingRecords(AfterLoad(s.(decoder := None), r.begin, r.end, r.records)) == r.records;
  }

  lemma SoundAtRest(env: Env, f: Bytes, s: Reader, delivered: nat)
    requires Sound(f, s, delivered)
    ensures var r, s0 := LoadFrom(env, f, s.nextChunkFilePos), s.(decoder := None);
      && (r.LoadEof? ==> Sound(f, s0.(nextChunkFilePos := r.at, atEof := true), delivered))
      && (r.LoadFailed? ==> Sound(f, s0.(nextChunkFilePos := r.at), delivered))
  {
    hide LoadFrom, IsPossibleChunkBoundary;
    LoadKeepsLegal(env, f, s.nextChunkFilePos);
  }

  lemma SoundAfterRegion(h: Hash, f: Bytes, s: Reader, at: nat, trustedEnd: Option<nat>, delivered: nat)
    requires Sound(f, s, delivered) && s.nextChunkFilePos == at && s.decoder.None?
    requires trustedEnd.Some? ==> at < trustedEnd.value && IsPossibleChunkBoundary(trustedEnd.value)
    ensures Sound(f, Repositioned(s, RegionFor(h, f, |f|, at, trustedEnd, PreviousEnd(s.log))), delivered)
  {
    RegionIsLegal(h, f, at, trustedEnd, PreviousEnd(s.log));
    hide RegionFor, IsPossibleChunkBoundary;
    var region := RegionFor(h, f, |f|, at, trustedEnd, PreviousEnd(s.log));
    LogGrows(s.log, region);
  }

  lemma SoundAfterRecovery(h: Hash, cb: Callback, f: Bytes, s: Reader, at: nat, trustedEnd: Option<nat>, delivered: nat)
    requires Sound(f, s, delivered) && s.nextChunkFilePos == at && s.decoder.None?
    requires trustedEnd.Some? ==> at < trustedEnd.value && IsPossibleChunkBoundary(trustedEnd.value)
    ensures var s1 := TryRecover(h, Some(cb), f, s, at, trustedEnd).0;
      Sound(f, s1, delivered) && s1.log != [] && s1.log[|s1.log| - 1].end == s1.nextChunkFilePos
  {
    hide RegionFor, IsPossibleChunkBoundary;
    SoundAfterRegion(h, f, s, at, trustedEnd, delivered);
  }

  lemma LogGrows(log: seq<Region>, region: Region)
    requires RegionsOrdered(log) && region.begin < region.end
    requires log != [] ==> log[|log| - 1].end <= region.begin
    ensures RegionsOrdered(log + [region])
  {
    forall i, j | 0 <= i < j < |log + [region]|
      ensures (log + [region])[i].end <= (log + [region])[j].begin
    {
      if j == |log| && i < |log| - 1 {
        assert log[i].end <= log[|log| - 1].begin < log[|log| - 1].end;
      }
    }
  }

  lemma SoundAfterRecord(env: Env, cb: Option<Callback>, f: Bytes, s: Reader, delivered: nat)
    requires Sound(f, s, delivered) && s.decoder.Some? && s.decoder.value.HasNext()
    ensures var (s', r) := ReadRecord(env, cb, f, s); r.GotRecord? && Sound(f, s', delivered + 1)
  {
    hide LoadFrom, IsPossibleChunkBoundary;
  }

  /** A call keeps the invariant, and after an error reading resumes exactly at the last region's end. */
  ghost predicate CallIsSound(cb: Option<Callback>, f: Bytes, s': Reader, r: ReadResult, delivered: nat) {
    && Sound(f, s', delivered + if r.GotRecord? then 1 else 0)
    && (cb.Some? && r.ReadError? ==> s'.log != [] && s'.log[|s'.log| - 1].end == s'.nextChunkFilePos)
  }

  lemma {:induction false} ReadRecordKeepsSound(env: Env, cb: Option<Callback>, f: Bytes, s: Reader, delivered: nat)
    requires Sound(f, s, delivered)
    ensures var (s', r) := ReadRecord(env, cb, f, s); CallIsSound(cb, f, s', r, delivered)
    decreases Gap(f, s.nextChunkFilePos)
  {
    SoundIsSettled(f, s, delivered);
    hide ReadRecord, LoadFrom, TryRecover, Gap, Sound, IsPossibleChunkBoundary, CanonicalChunkAddress, AtRest;
    if s.decoder.Some? && s.decoder.value.HasNext() {
      SoundAfterRecord(env, cb, f, s, delivered);
    } else {
      var s0, load := s.(decoder := None), LoadFrom(env, f, s.nextChunkFilePos);
      ReadRecordLoads(env, cb, f, s);
      LoadDecreases(env, f, s.nextChunkFilePos);
      SoundAtRest(env, f, s, delivered);
      if load.Loaded? {
        var s1 := AfterLoad(s0, load.begin, load.end, load.records);
        SoundAfterLoad(env, f, s, delivered);
        ReadRecordKeepsSound(env, cb, f, s1, delivered);
      } else if load.LoadFailed? && cb.Some? {
        var at, trusted := load.at, load.trustedEnd;
        FailureIsLegal(env, f, s, delivered);
        SoundAfterRecovery(env.h, cb.value, f, s0.(nextChunkFilePos := at), at, trusted, delivered);
        var (s1, go) := TryRecover(env.h, cb, f, s0.(nextChunkFilePos := at), at, trusted);
        if go {
          ReadRecordKeepsSound(env, cb, f, s1, delivered);
        }
      }
    }
  }

  lemma SoundIsSettled(f: Bytes, s: Reader, delivered: nat)
    requires Sound(f, s, delivered)
    ensures s.streamLen == |f|
  {
  }

  lemma FailureIsLegal(env: Env, f: Bytes, s: Reader, delivered: nat)
    requires Sound(f, s, delivered)
    ensures var r := LoadFrom(env, f, s.nextChunkFilePos);
      r.LoadFailed? && r.trustedEnd.Some? ==> r.at < r.trustedEnd.value && IsPossibleChunkBoundary(r.trustedEnd.value)
  {
    LoadKeepsLegal(env, f, s.nextChunkFilePos);
  }

  lemma LoadDecreases(env: Env, f: Bytes, pos: nat)
    ensures var r := LoadFrom(env, f, pos);
      && (r.Loaded? ==> Gap(f, r.end) < Gap(f, pos))
      && (forall end | r.LoadFailed? && r.at < end && (r.trustedEnd.Some? ==> r.trustedEnd.value <= end) ::
            Gap(f, end) < Gap(f, pos))
  {
    CanonicalFacts(pos);
  }

  // ---------------------------------------------------------------- runs

  /** `n` calls in a row. */
  function Run(env: Env, cb: Option<Callback>, f: Bytes, s: Reader, n: nat): (Reader, seq<ReadResult>)
    decreases n
  {
    if n == 0 then (s, [])
    else
      var (s1, r) := ReadRecord(env, cb, f, s);
      var (s2, rs) := Run(env, cb, f, s1, n - 1);
      (s2, [r] + rs)
  }

  function Delivered(rs: seq<ReadResult>): seq<Bytes> {
    if rs == [] then []
    else (if rs[0].GotRecord? then [rs[0].record] else []) + Delivered(rs[1..])
  }

  // ---------------------------------------------------------------- reading until there is nothing more

  /** The records up to the first call that returns none, what that call returns, and the reader after it. */
  datatype Drained = Drained(records: seq<Bytes>, last: ReadResult, reader: Reader)

  function After(records: seq<Bytes>, d: Drained): Drained { d.(records := records + d.records) }

  function ReadAll(env: Env, cb: Option<Callback>, f: Bytes, s: Reader): Drained
    decreases Gap(f, s.nextChunkFilePos), |PendingRecords(s)|
  {
    ReadingProgresses(env, cb, f, s);
    var (s1, r) := ReadRecord(env, cb, f, s);
    if r.GotRecord? then After([r.record], ReadAll(env, cb, f, s1)) else Drained([], r, s1)
  }

  /** A call that returns a record takes it from the decoder or moves the cursor. */
  lemma {:induction false} ReadingProgresses(env: Env, cb: Option<Callback>, f: Bytes, s: Reader)
    ensures var (s1, r) := ReadRecord(env, cb, f, s);
      r.GotRecord? ==>
        || Gap(f, s1.nextChunkFilePos) < Gap(f, s.nextChunkFilePos)
        || (s1.nextChunkFilePos == s.nextChunkFilePos && |PendingRecords(s1)| < |PendingRecords(s)|)
    decreases Gap(f, s.nextChunkFilePos)
  {
    hide LoadFrom, TryRecover, Gap, LengthAfterLoad;
    if !(s.decoder.Some? && s.decoder.value.HasNext()) {
      hide ReadRecord;
      ReadRecordLoads(env, cb, f, s);
      LoadDecreases(env, f, s.nextChunkFilePos);
      var s0, load := AtRest(env, f, s), LoadFrom(env, f, s.nextChunkFilePos);
      if load.Loaded? {
        ReadingProgresses(env, cb, f, AfterLoad(s0, load.begin, load.end, load.records));
      } else if load.LoadFailed? {
        var (s1, go) := TryRecover(env.h, cb, f, s0.(nextChunkFilePos := load.at), load.at, load.trustedEnd);
        if go {
          ReadingProgresses(env, cb, f, s1);
        }
      }
    }
  }

  /** Reading everything is a run of calls, every one but the last returning a record. */
  lemma {:induction false} ReadAllIsRun(env: Env, cb: Option<Callback>, f: Bytes, s: Reader)
    ensures var d := ReadAll(env, cb, f, s);
      var (s', rs) := Run(env, cb, f, s, |d.records| + 1);
      && s' == d.reader && |rs| == |d.records| + 1 && rs[|d.records|] == d.last && !d.last.GotRecord?
      && forall k | 0 <= k < |d.records| :: rs[k] == GotRecord(d.records[k])
    decreases Gap(f, s.nextChunkFilePos), |PendingRecords(s)|
  {
    hide ReadRecord;
    ReadingProgresses(env, cb, f, s);
    var (s1, r) := ReadRecord(env, cb, f, s);
    if r.GotRecord? {
      ReadAllIsRun(env, cb, f, s1);
    } else {
      assert Run(env, cb, f, s1, 0) == (s1, []);
    }
  }

  /** More calls begin like fewer. */
  lemma {:induction false} RunPrefix(env: Env, cb: Option<Callback>, f: Bytes, s: Reader, n: nat, m: nat)
    requires n <= m
    ensures var (_, few) := Run(env, cb, f, s, n);
      var (_, many) := Run(env, cb, f, s, m);
      |few| == n && |many| == m && few <= many
    decreases n
  {
    hide ReadRecord;
    if n > 0 {
      RunPrefix(env, cb, f, ReadRecord(env, cb, f, s).0, n - 1, m - 1);
    } else {
      RunLength(env, cb, f, s, m);
    }
  }

  lemma {:induction false} RunLength(env: Env, cb: Option<Callback>, f: Bytes, s: Reader, n: nat)
    ensures |Run(env, cb, f, s, n).1| == n
    decreases n
  {
    hide ReadRecord;
    if n > 0 {
      RunLength(env, cb, f, ReadRecord(env, cb, f, s).0, n - 1);
    }
  }

  lemma {:induction false} RunKeepsSound(env: Env, cb: Option<Callback>, f: Bytes, s: Reader, n: nat, delivered: nat)
    requires Sound(f, s, delivered)
    ensures var (s', rs) := Run(env, cb, f, s, n); Sound(f, s', delivered + |Delivered(rs)|)
    decreases n
  {
    hide ReadRecord, Sound;
    if n > 0 {
      var (s1, r) := ReadRecord(env, cb, f, s);
      ReadRecordKeepsSound(env, cb, f, s, delivered);
      var d := delivered + if r.GotRecord? then 1 else 0;
      RunKeepsSound(env, cb, f, s1, n - 1, d);
      var (_, rs) := Run(env, cb, f, s1, n - 1);
      assert ([r] + rs)[1..] == rs;
    }
  }

  lemma OpenIsSound(h: Hash, cb: Option<Callback>, f: Bytes)
    requires Open(h, cb, f).Some?
    ensures Sound(f, Open(h, cb, f).value, 0)
  {
    hide Resync, RegionFor, ValidBlockHeaderAt;
    if f != [] && !PreambleIsIntact(h, f) {
      assert LegalCursor(f, 0);
      RegionIsLegal(h, f, 0, None, None);
    }
  }

  /**
   Any bytes, any callback, any number of calls: the regions reported are nonempty, pairwise
   disjoint and increasing, they all lie before the cursor, and the records returned are at
   most as many as the file has bytes.
   */
  lemma ReadingIsSafe(env: Env, cb: Option<Callback>, f: Bytes, n: nat)
    requires Open(env.h, cb, f).Some?
    ensures var (s, rs) := Run(env, cb, f, Open(env.h, cb, f).value, n);
      && RegionsOrdered(s.log)
      && (s.log != [] ==> s.log[|s.log| - 1].end <= s.nextChunkFilePos)
      && LegalCursor(f, s.nextChunkFilePos)
      && |Delivered(rs)| <= |f|
  {
    hide Run, Open;
    OpenIsSound(env.h, cb, f);
    RunKeepsSound(env, cb, f, Open(env.h, cb, f).value, n, 0);
  }

  // ---------------------------------------------------------------- what a drain delivers

  /** All records and regions from a chunk boundary on, the verdicts never asked. */
  function DrainFrom(env: Env, f: Bytes, pos: nat, previousEnd: Option<nat>): (seq<Bytes>, seq<Region>)
    decreases Gap(f, pos)
  {
    LoadDecreases(env, f, pos);
    match LoadFrom(env, f, pos)
    case Loaded(_, e, records) =>
      var (rest, regions) := DrainFrom(env, f, e, previousEnd);
      (records + rest, regions)
    case LoadEof(_) => ([], [])
    case LoadFailed(at, trusted) =>
      var region := RegionFor(env.h, f, |f|, at, trusted, previousEnd);
      var (rest, regions) := DrainFrom(env, f, region.end, Some(region.end));
      (rest, [region] + regions)
  }

  function RemainingRecords(env: Env, f: Bytes, s: Reader): seq<Bytes> {
    PendingRecords(s) + DrainFrom(env, f, s.nextChunkFilePos, PreviousEnd(s.log)).0
  }

  function RemainingRegions(env: Env, f: Bytes, s: Reader): seq<Region> {
    DrainFrom(env, f, s.nextChunkFilePos, PreviousEnd(s.log)).1
  }

  /** What one call takes off the remaining records and regions, whatever the verdicts it meets. */
  ghost predicate CallAdvances(env: Env, f: Bytes, s: Reader, s': Reader, r: ReadResult) {
    && s'.streamLen == s.streamLen && s.log <= s'.log
    && s.log + RemainingRegions(env, f, s) == s'.log + RemainingRegions(env, f, s')
    && (r.GotRecord? ==> RemainingRecords(env, f, s) == [r.record] + RemainingRecords(env, f, s'))
    && (!r.GotRecord? ==> RemainingRecords(env, f, s) == RemainingRecords(env, f, s'))
    && (r.EndOfFile? ==> RemainingRecords(env, f, s') == [] && RemainingRegions(env, f, s') == [])
    && (r.ReadError? ==> |s.log| < |s'.log|)
  }

  lemma {:induction false} LoadEofAgain(env: Env, f: Bytes, pos: nat)
    ensures LoadFrom(env, f, pos).LoadEof? ==> LoadFrom(env, f, LoadFrom(env, f, pos).at) == LoadFrom(env, f, pos)
    decreases Gap(f, pos)
  {
    hide ParseChunkAt;
    ParseExtent(env, f, pos);
    CanonicalFacts(pos);
    if ParseChunkAt(env, f, pos).ParseSkip? {
      LoadEofAgain(env, f, ParseChunkAt(env, f, pos).e);
    }
  }

  lemma TakeAdvances(env: Env, cb: Callback, f: Bytes, s: Reader)
    requires s.streamLen == |f|
    requires s.decoder.Some? && s.decoder.value.HasNext()
    ensures var (s', r) := ReadRecord(env, Some(cb), f, s); CallAdvances(env, f, s, s', r)
  {
    hide LoadFrom, RegionFor, Gap;
    var d := s.decoder.value;
    assert d.records[d.next..] == [d.records[d.next]] + d.records[d.next + 1..];
  }

  lemma EofAdvances(env: Env, cb: Callback, f: Bytes, s: Reader)
    requires s.streamLen == |f|
    requires !(s.decoder.Some? && s.decoder.value.HasNext()) && LoadFrom(env, f, s.nextChunkFilePos).LoadEof?
    ensures var (s', r) := ReadRecord(env, Some(cb), f, s); CallAdvances(env, f, s, s', r)
  {
    hide LoadFrom, RegionFor, Gap;
    LoadEofAgain(env, f, s.nextChunkFilePos);
  }

  lemma {:induction false} ReadRecordAdvances(env: Env, cb: Callback, f: Bytes, s: Reader)
    requires s.streamLen == |f|
    ensures var (s', r) := ReadRecord(env, Some(cb), f, s); CallAdvances(env, f, s, s', r)
    decreases Gap(f, s.nextChunkFilePos)
  {
    hide ReadRecord, LoadFrom, RegionFor, Gap, RemainingRecords, RemainingRegions, AtRest;
    var (s', r) := ReadRecord(env, Some(cb), f, s);
    if s.decoder.Some? && s.decoder.value.HasNext() {
      TakeAdvances(env, cb, f, s);
    } else {
      ReadRecordLoads(env, Some(cb), f, s);
      var s0 := s.(decoder := None);
      LoadDecreases(env, f, s.nextChunkFilePos);
      match LoadFrom(env, f, s.nextChunkFilePos) {
        case Loaded(b, e, records) =>
          var s1 := AfterLoad(s0, b, e, records);
          LoadedRemains(env, f, s, s1);
          ReadRecordAdvances(env, cb, f, s1);
        case LoadEof(at) =>
          EofAdvances(env, cb, f, s);
        case LoadFailed(at, trusted) =>
          var (s1, go) := TryRecover(env.h, Some(cb), f, s0.(nextChunkFilePos := at), at, trusted);
          RecoveredRemains(env, f, s, s1, at, trusted);
          if go {
            ReadRecordAdvances(env, cb, f, s1);
            AdvancesCompose(env, f, s, s1, s', r);
          }
      }
    }
  }

  lemma LoadedRemains(env: Env, f: Bytes, s: Reader, s1: Reader)
    requires !(s.decoder.Some? && s.decoder.value.HasNext())
    requires LoadFrom(env, f, s.nextChunkFilePos).Loaded?
    requires var r := LoadFrom(env, f, s.nextChunkFilePos);
      s1 == AfterLoad(s.(decoder := None), r.begin, r.end, r.records)
    ensures s1.log == s.log
    ensures RemainingRecords(env, f, s) == RemainingRecords(env, f, s1)
    ensures RemainingRegions(env, f, s) == RemainingRegions(env, f, s1)
  {
    hide LoadFrom, RegionFor;
    var r := LoadFrom(env, f, s.nextChunkFilePos);
    assert PendingRecords(s1) == r.records;
  }

  lemma RecoveredRemains(env: Env, f: Bytes, s: Reader, s1: Reader, at: nat, trusted: Option<nat>)
    requires !(s.decoder.Some? && s.decoder.value.HasNext())
    requires LoadFrom(env, f, s.nextChunkFilePos) == LoadFailed(at, trusted)
    requires s1 == Repositioned(s.(decoder := None, nextChunkFilePos := at),
                                RegionFor(env.h, f, |f|, at, trusted, PreviousEnd(s.log)))
    ensures |s.log| < |s1.log| && s.log <= s1.log
    ensures s.log + RemainingRegions(env, f, s) == s1.log + RemainingRegions(env, f, s1)
    ensures RemainingRecords(env, f, s) == RemainingRecords(env, f, s1)
  {
    hide LoadFrom, RegionFor;
    var region := RegionFor(env.h, f, |f|, at, trusted, PreviousEnd(s.log));
    assert s1.log + RemainingRegions(env, f, s1) == s.log + ([region] + RemainingRegions(env, f, s1));
  }

  lemma AdvancesCompose(env: Env, f: Bytes, s: Reader, s1: Reader, s': Reader, r: ReadResult)
    requires CallAdvances(env, f, s1, s', r)
    requires s1.streamLen == s.streamLen && s.log <= s1.log
    requires s.log + RemainingRegions(env, f, s) == s1.log + RemainingRegions(env, f, s1)
    requires RemainingRecords(env, f, s) == RemainingRecords(env, f, s1)
    ensures CallAdvances(env, f, s, s', r)
  {
    hide RemainingRecords, RemainingRegions;
  }

  /**
   After `n` calls, what was delivered and reported followed by what remains is what remained
   before; and more calls than there are records and regions end with the end of the file.
   */
  lemma {:induction false} RunAdvances(env: Env, cb: Callback, f: Bytes, s: Reader, n: nat)
    requires s.streamLen == |f|
    ensures var (s', rs) := Run(env, Some(cb), f, s, n);
      && |rs| == n
      && Delivered(rs) + RemainingRecords(env, f, s') == RemainingRecords(env, f, s)
      && s'.log + RemainingRegions(env, f, s') == s.log + RemainingRegions(env, f, s)
      && (n > 0 && rs[n - 1].EndOfFile? ==> RemainingRecords(env, f, s') == [] && RemainingRegions(env, f, s') == [])
      && (n > |RemainingRecords(env, f, s)| + |RemainingRegions(env, f, s)| ==> rs[n - 1].EndOfFile?)
    decreases n
  {
    hide ReadRecord, RemainingRecords, RemainingRegions;
    if n > 0 {
      var (s1, r) := ReadRecord(env, Some(cb), f, s);
      ReadRecordAdvances(env, cb, f, s);
      RunAdvances(env, cb, f, s1, n - 1);
      var (s', rs) := Run(env, Some(cb), f, s1, n - 1);
      assert ([r] + rs)[1..] == rs;
      assert [r] + rs != [];
      RunStep(env, f, s, s1, s', r, rs);
      if r.EndOfFile? && n > 1 {
        EndOfFileStays(env, cb, f, s1, n - 1);
      }
    }
  }

  lemma RunStep(env: Env, f: Bytes, s: Reader, s1: Reader, s': Reader, r: ReadResult, rs: seq<ReadResult>)
    requires CallAdvances(env, f, s, s1, r)
    requires Delivered(rs) + RemainingRecords(env, f, s') == RemainingRecords(env, f, s1)
    ensures Delivered([r] + rs) + RemainingRecords(env, f, s') == RemainingRecords(env, f, s)
    ensures !r.EndOfFile? ==> |RemainingRecords(env, f, s1)| + |RemainingRegions(env, f, s1)|
                              < |RemainingRecords(env, f, s)| + |RemainingRegions(env, f, s)|
  {
    hide RemainingRecords, RemainingRegions;
    assert ([r] + rs)[1..] == rs;
    assert |s.log + RemainingRegions(env, f, s)| == |s1.log + RemainingRegions(env, f, s1)|;
  }

  /** With nothing remaining, every further call meets the end of the file. */
  lemma {:induction false} EndOfFileStays(env: Env, cb: Callback, f: Bytes, s: Reader, n: nat)
    requires s.streamLen == |f|
    requires n > 0 && RemainingRecords(env, f, s) == [] && RemainingRegions(env, f, s) == []
    ensures var (_, rs) := Run(env, Some(cb), f, s, n); |rs| == n && rs[n - 1].EndOfFile?
    decreases n
  {
    hide ReadRecord, RemainingRecords, RemainingRegions;
    var (s1, r) := ReadRecord(env, Some(cb), f, s);
    ReadRecordAdvances(env, cb, f, s);
    NothingToTake(env, f, s, s1, r);
    if n > 1 {
      EndOfFileStays(env, cb, f, s1, n - 1);
    } else {
      assert Run(env, Some(cb), f, s1, 0) == (s1, []);
    }
  }

  lemma NothingToTake(env: Env, f: Bytes, s: Reader, s1: Reader, r: ReadResult)
    requires CallAdvances(env, f, s, s1, r)
    requires RemainingRecords(env, f, s) == [] && RemainingRegions(env, f, s) == []
    ensures r.EndOfFile? && RemainingRecords(env, f, s1) == [] && RemainingRegions(env, f, s1) == []
  {
    hide RemainingRecords, RemainingRegions;
    assert |s.log + RemainingRegions(env, f, s)| == |s1.log + RemainingRegions(env, f, s1)|;
  }

  /** Draining any bytes reaches the end of the file within as many calls as it delivers and reports, and one more. */
  lemma DrainEnds(env: Env, cb: Callback, f: Bytes, s: Reader, n: nat)
    requires s.streamLen == |f|
    requires n == |RemainingRecords(env, f, s)| + |RemainingRegions(env, f, s)| + 1
    ensures var (s', rs) := Run(env, Some(cb), f, s, n);
      && |rs| == n && rs[n - 1].EndOfFile?
      && Delivered(rs) == RemainingRecords(env, f, s)
      && s'.log == s.log + RemainingRegions(env, f, s)
  {
    hide Run, Delivered, RemainingRecords, RemainingRegions;
    RunAdvances(env, cb, f, s, n);
    var (s', rs) := Run(env, Some(cb), f, s, n);
    assert Delivered(rs) + [] == Delivered(rs) && s'.log + [] == s'.log;
  }

  lemma OpenIntact(h: Hash, cb: Option<Callback>, f: Bytes)
    requires f == [] || PreambleIsIntact(h, f)
    ensures Open(h, cb, f) == Some(Initial(f))
  {
    hide PreambleIsIntact;
  }

  /**
   On a stream whose preamble is intact, two readers retried until the end of the file return
   the same records and report the same regions, whatever their callbacks answer.
   */
  lemma VerdictsDoNotMatter(env: Env, cb: Callback, cb': Callback, f: Bytes, n: nat, n': nat)
    requires f == [] || PreambleIsIntact(env.h, f)
    requires n > 0 && n' > 0
    ensures Open(env.h, Some(cb), f) == Open(env.h, Some(cb'), f) == Some(Initial(f))
    ensures var (s, rs) := Run(env, Some(cb), f, Initial(f), n);
      var (s', rs') := Run(env, Some(cb'), f, Initial(f), n');
      && |rs| == n && |rs'| == n'
      && (rs[n - 1].EndOfFile? && rs'[n' - 1].EndOfFile? ==> Delivered(rs) == Delivered(rs') && s.log == s'.log)
  {
    OpenIntact(env.h, Some(cb), f);
    OpenIntact(env.h, Some(cb'), f);
    hide Run, Delivered, RemainingRecords, RemainingRegions, Open, PreambleIsIntact;
    RunAdvances(env, cb, f, Initial(f), n);
    RunAdvances(env, cb', f, Initial(f), n');
    var (s, rs) := Run(env, Some(cb), f, Initial(f), n);
    var (s', rs') := Run(env, Some(cb'), f, Initial(f), n');
    assert Delivered(rs) + [] == Delivered(rs) && s.log + [] == s.log;
    assert Delivered(rs') + [] == Delivered(rs') && s'.log + [] == s'.log;
  }
}
