/**
 Seeking on any bytes, and on a file damaged in any number of places: a seek that is not
 refused leaves to be read what reading from its target would have given, and the scans over
 chunk headers go on behind every header they cannot read.
 */
module DamagedSeeks {
  import opened Bytes
  import opened BlockArithmetic
  import opened ChunkParsing
  import opened Layout
  import opened StoredChunks
  import opened Files
  import opened ReaderSpec
  import opened Recovery
  import opened Damage
  import opened ScatteredDamage
  import opened Verdicts
  import Searching
  import Navigation
  import CH = ChunkHeaders

  // ---------------------------------------------------------------- seeking on any bytes

  /** How many records a seek passes over: of the chunk addressed only, and no more than it has. */
  function Skipped(load: Load, c: nat, index: nat): nat {
    if load.Loaded? && load.begin == c then Min(index, |load.records|) else 0
  }

  /**
   On any bytes and whatever the callback answers: a seek leaves to be read, and to be
   reported, what draining from the address would have given, less the records it passes over.
   */
  lemma SeekLeavesTheRest(env: Env, cb: Callback, f: Bytes, s: Reader, p: RecordPosition)
    requires s.streamLen == |f|
    ensures var c := CanonicalChunkAddress(p.chunkBegin);
      var d, k := DrainFrom(env, f, c, PreviousEnd(s.log)), Skipped(LoadFrom(env, f, c), c, p.recordIndex);
      var s' := Seek(env, Some(cb), f, s, p).0;
      && s'.streamLen == |f| && k <= |d.0|
      && RemainingRecords(env, f, s') == d.0[k..]
      && s'.log + RemainingRegions(env, f, s') == s.log + d.1
  {
    hide LoadFrom, DrainFrom, Seek, CanonicalChunkAddress, Gap, RegionFor;
    var c := CanonicalChunkAddress(p.chunkBegin);
    var s' := Seek(env, Some(cb), f, s, p).0;
    var prev := PreviousEnd(s.log);
    AfterSeek(env, cb, f, s, p);
    DrainOfLoad(env, f, c, prev);
    match LoadFrom(env, f, c) {
      case Loaded(b, e, records) =>
        var k := Skipped(LoadFrom(env, f, c), c, p.recordIndex);
        var rest := DrainFrom(env, f, e, prev).0;
        assert (records + rest)[k..] == records[k..] + rest;
      case LoadEof(at) =>
        LoadEofAgain(env, f, c);
        DrainOfLoad(env, f, at, prev);
        assert s.log + [] == s.log;
      case LoadFailed(at, trusted) =>
        var region := RegionFor(env.h, f, |f|, at, trusted, prev);
        var rest := DrainFrom(env, f, region.end, Some(region.end));
        assert (s.log + [region]) + rest.1 == s.log + ([region] + rest.1);
        assert [] + rest.0 == rest.0;
    }
  }

  /** The reader after a seek, by what loading at its address finds. */
  lemma AfterSeek(env: Env, cb: Callback, f: Bytes, s: Reader, p: RecordPosition)
    requires s.streamLen == |f|
    ensures var c := CanonicalChunkAddress(p.chunkBegin);
      var load, s' := LoadFrom(env, f, c), Seek(env, Some(cb), f, s, p).0;
      && s'.streamLen == |f|
      && (load.Loaded? ==>
            && PendingRecords(s') == load.records[Skipped(load, c, p.recordIndex)..]
            && s'.nextChunkFilePos == load.end && s'.log == s.log)
      && (load.LoadEof? ==> PendingRecords(s') == [] && s'.nextChunkFilePos == load.at && s'.log == s.log)
      && (load.LoadFailed? ==>
            var region := RegionFor(env.h, f, |f|, load.at, load.trustedEnd, PreviousEnd(s.log));
            PendingRecords(s') == [] && s'.nextChunkFilePos == region.end && s'.log == s.log + [region])
  {
    hide LoadFrom, Touched, RegionFor, CanonicalChunkAddress;
  }

  lemma DrainOfLoad(env: Env, f: Bytes, pos: nat, prev: Option<nat>)
    ensures var load, d := LoadFrom(env, f, pos), DrainFrom(env, f, pos, prev);
      && (load.Loaded? ==>
            d == (load.records + DrainFrom(env, f, load.end, prev).0, DrainFrom(env, f, load.end, prev).1))
      && (load.LoadEof? ==> d == ([], []))
      && (load.LoadFailed? ==>
            var region := RegionFor(env.h, f, |f|, load.at, load.trustedEnd, prev);
            var rest := DrainFrom(env, f, region.end, Some(region.end));
            d == (rest.0, [region] + rest.1))
  {
    hide LoadFrom, RegionFor, Gap;
  }

  /** On a damaged file: from any chunk on, exactly what survives there is still to be read. */
  lemma SeekFindsSurvivors(env: Env, cb: Callback, cs: seq<ChunkDesc>, g: Bytes, s: Reader, k: nat, index: nat)
    requires Detectable(env, cs, g) && s.streamLen == |g| && 0 < k <= |cs|
    ensures var s' := Seek(env, Some(cb), g, s, RecordPosition(Start(cs, k), index)).0;
      var skipped := if k < |cs| && Survives(env, cs, g, k) then Min(index, |cs[k].records|) else 0;
      && skipped <= |Survivors(env, cs, g, k).0|
      && s'.streamLen == |g|
      && RemainingRecords(env, g, s') == Survivors(env, cs, g, k).0[skipped..]
      && s'.log + RemainingRegions(env, g, s') == s.log + Survivors(env, cs, g, k).1
  {
    hide Detectable, Start, LoadFrom, Survivors, Seek, RemainingRecords, RemainingRegions, DrainFrom, ParseChunkAt,
         IsPossibleChunkBoundary, CanonicalChunkAddress, Survives;
    CanonicalStart(cs, k);
    LengthOfDamaged(env, cs, g);
    SeekLeavesTheRest(env, cb, g, s, RecordPosition(Start(cs, k), index));
    DrainsSurvivors(env, cs, g, k, PreviousEnd(s.log));
    if k < |cs| {
      LoadOfDamaged(env, cs, g, k);
    } else {
      LoadAtEnd(env, cs, g);
    }
  }

  /** Nothing is wrong with chunk `k`. */
  ghost predicate Survives(env: Env, cs: seq<ChunkDesc>, g: Bytes, k: nat)
    requires k < |cs| && |g| == Start(cs, |cs|)
  {
    FrameOf(env, cs, g, k);
    FateOf(env, cs, g, k) == Intact
  }

  lemma CanonicalStart(cs: seq<ChunkDesc>, k: nat)
    requires k <= |cs|
    ensures CanonicalChunkAddress(Start(cs, k)) == Start(cs, k)
  {
    CanonicalFacts(Start(cs, k));
  }

  lemma LoadAtEnd(env: Env, cs: seq<ChunkDesc>, g: Bytes)
    requires |g| == Start(cs, |cs|)
    ensures !LoadFrom(env, g, Start(cs, |cs|)).Loaded?
  {
    hide ParseChunkAt, Start, IsPossibleChunkBoundary;
    CanonicalStart(cs, |cs|);
    ParseExtent(env, g, Start(cs, |cs|));
  }

  /** Loading at chunk `k` loads that chunk exactly if it holds data and survives. */
  lemma LoadOfDamaged(env: Env, cs: seq<ChunkDesc>, g: Bytes, k: nat)
    requires Detectable(env, cs, g) && |g| == Start(cs, |cs|) && 0 < k < |cs|
    ensures var load := LoadFrom(env, g, Start(cs, k));
      && (Survives(env, cs, g, k) && IsDataChunk(cs[k]) ==>
            load.Loaded? && load.begin == Start(cs, k) && load.records == cs[k].records)
      && (load.Loaded? && load.begin == Start(cs, k) ==> Survives(env, cs, g, k) && IsDataChunk(cs[k]))
    ensures Survives(env, cs, g, k) && !IsDataChunk(cs[k]) ==> cs[k].records == []
  {
    hide Detectable, Start, End, ParseChunkAt, FateOf, ReadEnd, DataEnd, IsPossibleChunkBoundary, IsDataChunk,
         CanonicalChunkAddress;
    FrameOf(env, cs, g, k);
    FateParses(env, cs, g, k);
    var p := ParseChunkAt(env, g, Start(cs, k));
    ParseExtent(env, g, Start(cs, k));
    if p.ParseSkip? {
      CanonicalFacts(p.e);
      LoadedBehind(env, g, p.e);
    }
  }

  /** What is loaded from a chunk boundary on begins there or behind. */
  lemma LoadedBehind(env: Env, f: Bytes, pos: nat)
    requires IsPossibleChunkBoundary(pos)
    ensures LoadFrom(env, f, pos).Loaded? ==> pos <= LoadFrom(env, f, pos).begin
  {
    LoadKeepsLegal(env, f, pos);
  }

  // ---------------------------------------------------------------- scans over headers

  /** The header of chunk `k` can be read. */
  ghost predicate HeaderShows(env: Env, cs: seq<ChunkDesc>, g: Bytes, k: nat)
    requires k < |cs| && |g| == Start(cs, |cs|)
  {
    FrameOf(env, cs, g, k);
    HeaderIsClear(env, cs, g, k)
  }

  /** What a scan sees at chunk `k`. */
  lemma ScanSees(env: Env, cs: seq<ChunkDesc>, g: Bytes, k: nat)
    requires Detectable(env, cs, g) && |g| == Start(cs, |cs|) && 0 < k < |cs|
    ensures var r := ReadHeaderAt(env.h, g, Start(cs, k));
      && r != HeaderEof
      && (Readable(env.h, r) <==> HeaderShows(env, cs, g, k))
      && (Readable(env.h, r) ==>
            && r.ch == HeaderOf(env.h, cs[k]) && r.chunkBegin == Start(cs, k)
            && r.ch.NumRecords() == |cs[k].records| && r.ch.Type() == CH.TypeOfByte(cs[k].typeByte)
            && EndOf(Start(cs, k), r.ch) == Start(cs, k + 1))
  {
    hide Detectable, Start, End, ChunkEnd, ReadHeaderAt, HeaderOf, ReadEnd, DataEnd, IsPossibleChunkBoundary,
         HeaderReadFrom, ValidBlockHeaderAt, NextBlockBoundary, CanonicalChunkAddress, WellFormed;
    FrameOf(env, cs, g, k);
    HeaderFields(env.h, g, Start(cs, k));
    ChunkIsWellFormed(env, cs, g, k);
    WrittenHeaderFields(env.h, cs[k]);
    EndIsChunkEnd(Start(cs, k), cs[k]);
    if HeaderShows(env, cs, g, k) {
      HeaderReads(env, cs, g, k);
    }
  }

  /** Where a scan for `t` from chunk `k` stops: the end, or the first chunk it sees that reaches to the target. */
  ghost function ScanStops(env: Env, cs: seq<ChunkDesc>, g: Bytes, k: nat, t: nat): (i: nat)
    requires k <= |cs| && |g| == Start(cs, |cs|)
    ensures k <= i <= |cs|
    decreases |cs| - k
  {
    if k == |cs| then k
    else if !HeaderShows(env, cs, g, k) then ScanStops(env, cs, g, ResumesAt(env, cs, g, k), t)
    else if Start(cs, k) >= t || Start(cs, k) + |cs[k].records| > t then k
    else ScanStops(env, cs, g, k + 1, t)
  }

  /** What it reports on the way: from each header it cannot read to where a reader would go on. */
  ghost function ScanLoses(env: Env, cs: seq<ChunkDesc>, g: Bytes, k: nat, t: nat): seq<Region>
    requires k <= |cs| && |g| == Start(cs, |cs|)
    decreases |cs| - k
  {
    if k == |cs| then []
    else if !HeaderShows(env, cs, g, k) then
      var m := ResumesAt(env, cs, g, k);
      [Region(Start(cs, k), Start(cs, m))] + ScanLoses(env, cs, g, m, t)
    else if Start(cs, k) >= t || Start(cs, k) + |cs[k].records| > t then []
    else ScanLoses(env, cs, g, k + 1, t)
  }

  /** What a seek by number has found when it stops at chunk `i`. */
  ghost predicate LandsAt(env: Env, cs: seq<ChunkDesc>, g: Bytes, before: seq<Region>, s': Reader, i: nat, t: nat)
    requires i <= |cs| && |g| == Start(cs, |cs|)
  {
    var index := if Start(cs, i) < t then t - Start(cs, i) else 0;
    var rest := Survivors(env, cs, g, i);
    var skipped := if i < |cs| && Survives(env, cs, g, i) then Min(index, |cs[i].records|) else 0;
    && skipped <= |rest.0|
    && RemainingRecords(env, g, s') == rest.0[skipped..]
    && s'.log + RemainingRegions(env, g, s') == before + rest.1
  }

  lemma ScanReadsOn(env: Env, cb: Callback, g: Bytes, s: Reader, pos: nat, t: nat)
    requires s.streamLen == |g|
    ensures var r, d := ReadHeaderAt(env.h, g, pos), SeekScan(env, Some(cb), g, s, pos, t);
      && (r == HeaderEof ==> d == (AtEndOfScan(s, pos), true))
      && (r != HeaderEof && !Readable(env.h, r) ==>
            var region := RegionFor(env.h, g, |g|, pos, None, PreviousEnd(s.log));
            d == if cb(|s.log|, region) then SeekScan(env, Some(cb), g, Repositioned(s, region), region.end, t)
                 else (Repositioned(s, region), false))
      && (Readable(env.h, r) ==>
            d == if pos >= t then Seek(env, Some(cb), g, s, RecordPosition(pos, 0))
                 else if pos + r.ch.NumRecords() > t then Seek(env, Some(cb), g, s, RecordPosition(pos, t - pos))
                 else SeekScan(env, Some(cb), g, s, EndOf(pos, r.ch), t))
  {
    HeaderEndAdvances(env.h, g, pos);
    hide ReadHeaderAt, EndOf, RegionFor, Seek, LengthAfterHeader;
  }

  lemma LandsAtEnd(env: Env, cs: seq<ChunkDesc>, g: Bytes, s: Reader, t: nat)
    requires Detectable(env, cs, g) && |g| == Start(cs, |cs|) && |cs| > 0
    ensures LandsAt(env, cs, g, s.log, AtEndOfScan(s, Start(cs, |cs|)), |cs|, t)
  {
    hide DrainFrom, Start, Detectable;
    DrainsSurvivors(env, cs, g, |cs|, PreviousEnd(s.log));
    assert Survivors(env, cs, g, |cs|) == ([], []);
  }

  /**
   A seek by number over a damaged file, from any chunk on: unless it is refused it passes over
   every header it cannot read, reporting what is lost there, and from where it stops exactly
   what survives is still to be read.
   */
  lemma {:induction false} ScanOverDamage(env: Env, cb: Callback, cs: seq<ChunkDesc>, g: Bytes, s: Reader, k: nat,
                                          t: nat)
    requires Detectable(env, cs, g) && |g| == Start(cs, |cs|) && s.streamLen == |g| && 0 < k <= |cs|
    ensures var (s', ok) := SeekScan(env, Some(cb), g, s, Start(cs, k), t);
      ok ==> LandsAt(env, cs, g, s.log + ScanLoses(env, cs, g, k, t), s', ScanStops(env, cs, g, k, t), t)
    decreases |cs| - k
  {
    hide Detectable, Start, SeekScan, ReadHeaderAt, EndOf, Seek, RegionFor, HeaderShows, Survives, Survivors, LandsAt,
         ResumesAt, IsPossibleChunkBoundary, RemainingRecords, RemainingRegions, HeaderOf;
    ScanReadsOn(env, cb, g, s, Start(cs, k), t);
    if k == |cs| {
      EndIsEof(env.h, cs, g);
      LandsAtEnd(env, cs, g, s, t);
      assert s.log + [] == s.log;
    } else {
      ScanSees(env, cs, g, k);
      if !HeaderShows(env, cs, g, k) {
        var m := ResumesAt(env, cs, g, k);
        LossEndsAt(env, cs, g, k, PreviousEnd(s.log));
        var region := Region(Start(cs, k), Start(cs, m));
        ScanOverDamage(env, cb, cs, g, Repositioned(s, region), m, t);
        assert (s.log + [region]) + ScanLoses(env, cs, g, m, t) == s.log + ([region] + ScanLoses(env, cs, g, m, t));
      } else if Start(cs, k) >= t || Start(cs, k) + |cs[k].records| > t {
        var index := if Start(cs, k) < t then t - Start(cs, k) else 0;
        SeekLandsAt(env, cb, cs, g, s, k, t);
        assert s.log + [] == s.log;
      } else {
        ScanOverDamage(env, cb, cs, g, s, k + 1, t);
      }
    }
  }

  lemma EndIsEof(h: Hash, cs: seq<ChunkDesc>, g: Bytes)
    requires |g| == Start(cs, |cs|)
    ensures ReadHeaderAt(h, g, Start(cs, |cs|)) == HeaderEof
  {
    hide Start, IsPossibleChunkBoundary;
    CanonicalStart(cs, |cs|);
  }

  lemma SeekLandsAt(env: Env, cb: Callback, cs: seq<ChunkDesc>, g: Bytes, s: Reader, k: nat, t: nat)
    requires Detectable(env, cs, g) && |g| == Start(cs, |cs|) && s.streamLen == |g| && 0 < k < |cs|
    ensures var index := if Start(cs, k) < t then t - Start(cs, k) else 0;
      LandsAt(env, cs, g, s.log, Seek(env, Some(cb), g, s, RecordPosition(Start(cs, k), index)).0, k, t)
  {
    hide Detectable, Start, Seek, Survives, Survivors, RemainingRecords, RemainingRegions;
    var index := if Start(cs, k) < t then t - Start(cs, k) else 0;
    SeekFindsSurvivors(env, cb, cs, g, s, k, index);
  }

  /** The scan starts at some chunk, not behind the target unless it is the first one. */
  lemma OriginOfDamaged(env: Env, cs: seq<ChunkDesc>, g: Bytes, t: nat) returns (o: nat)
    requires Detectable(env, cs, g)
    ensures 1 <= o <= |cs| && ScanOrigin(env.h, g, t) == Start(cs, o) && (o == 1 || Start(cs, o) <= t)
  {
    FirstChunkOfDamaged(env, cs, g);
    hide Detectable, Start, ValidBlockHeaderAt, IsBlockBoundary, IsPossibleChunkBoundary, Agrees;
    var q := RoundDownToBlockBoundary(Min(t, |g|));
    o := 1;
    if q > 0 && ValidBlockHeaderAt(env.h, g, q) {
      o := OriginAtValid(env, cs, g, t, q);
    }
  }

  lemma FirstChunkOfDamaged(env: Env, cs: seq<ChunkDesc>, g: Bytes)
    requires Detectable(env, cs, g)
    ensures |cs| > 0 && Start(cs, 1) == FIRST_CHUNK && |g| == Start(cs, |cs|)
  {
    SignatureEnds(cs);
  }

  lemma OriginAtValid(env: Env, cs: seq<ChunkDesc>, g: Bytes, t: nat, q: nat) returns (o: nat)
    requires Detectable(env, cs, g)
    requires q == RoundDownToBlockBoundary(Min(t, |g|)) && q > 0 && ValidBlockHeaderAt(env.h, g, q)
    ensures 1 <= o <= |cs| && ScanOrigin(env.h, g, t) == Start(cs, o) <= t
  {
    FirstChunkOfDamaged(env, cs, g);
    Navigation.RoundedDown(Min(t, |g|));
    ValidFits(env.h, g, q);
    hide Detectable, Start, ValidBlockHeaderAt, IsPossibleChunkBoundary, IsBlockBoundary, RoundDownToBlockBoundary,
         Agrees, ScanOrigin, Usable;
    var i := FindCovering(cs, |cs|, q);
    ValidBoundaryAgrees(env, cs, g, i, q);
    Navigation.StartsOrdered(cs, i + 1, 1);
    Navigation.StartsOrdered(cs, 1, i);
    Navigation.StartsOrdered(cs, i, i + 1);
    o := if Start(cs, i) == q then i else if Start(cs, i + 1) <= t then i + 1 else i;
    Navigation.StartsOrdered(cs, 1, o);
    Navigation.UsableStart(cs, o);
    Navigation.OriginFromHeader(env.h, g, t, q, Start(cs, i), Start(cs, i + 1));
  }

  lemma ValidFits(h: Hash, g: Bytes, q: nat)
    requires ValidBlockHeaderAt(h, g, q)
    ensures q + BLOCK_HEADER_SIZE <= |g|
  {
  }

  /** The whole seek by number, over a file damaged anywhere behind its preamble. */
  lemma NumericSeekOverDamage(env: Env, cb: Callback, cs: seq<ChunkDesc>, g: Bytes, s: Reader, t: nat)
    returns (o: nat)
    requires Detectable(env, cs, g) && |g| == Start(cs, |cs|) && s.streamLen == |g|
    ensures 1 <= o <= |cs| && (o == 1 || Start(cs, o) <= t)
    ensures var (s', ok) := SeekNumeric(env, Some(cb), g, s, t);
      && Heeded(cb, s.log, s'.log, !ok)
      && (ok ==> LandsAt(env, cs, g, s.log + ScanLoses(env, cs, g, o, t), s', ScanStops(env, cs, g, o, t), t))
  {
    hide Detectable, Start, SeekScan, LandsAt, ScanOrigin, ScanLoses, ScanStops, Heeded;
    o := OriginOfDamaged(env, cs, g, t);
    SeekNumericAsks(env, Some(cb), g, s, t);
    ScanOverDamage(env, cb, cs, g, s, o, t);
  }

  // ---------------------------------------------------------------- looking back

  /** The walk to the chunk before finds it if every header on the way can be read, and fails otherwise. */
  lemma {:induction false} FindOverDamage(env: Env, cs: seq<ChunkDesc>, g: Bytes, i: nat, c: nat, target: nat)
    requires Detectable(env, cs, g) && |g| == Start(cs, |cs|) && 0 < i <= c < |cs|
    requires Start(cs, c) <= target < Start(cs, c + 1)
    ensures var r := FindScan(env.h, g, Start(cs, i), target);
      if forall k | i <= k <= c :: HeaderShows(env, cs, g, k)
      then r.Found? && r.begin == Start(cs, c) && r.ch.NumRecords() == |cs[c].records|
      else r == FindError
    decreases c - i
  {
    hide Detectable, ReadHeaderAt, EndOf, End, Start, IsPossibleChunkBoundary, HeaderShows, HeaderOf;
    ScanSees(env, cs, g, i);
    Navigation.StartsOrdered(cs, i + 1, c);
    if i < c {
      FindOverDamage(env, cs, g, i + 1, c, target);
    }
  }

  /** With the header before it unreadable, a reader at the beginning of a chunk cannot step back, and stays. */
  lemma NoStepBackOverDamage(env: Env, cb: Option<Callback>, cs: seq<ChunkDesc>, g: Bytes, s: Reader, j: nat)
    requires Detectable(env, cs, g) && |g| == Start(cs, |cs|) && s.streamLen == |g|
    requires 2 <= j <= |cs| && s.currentChunkBegin == Start(cs, j) && s.currentRecordIndex == 0
    requires !HeaderShows(env, cs, g, j - 1)
    ensures SeekBack(env, cb, g, s) == (s, SeekBackError)
  {
    hide Detectable, Start, FindChunkBefore, HeaderShows, SeekBack, IsPossibleChunkBoundary;
    FirstChunkOfDamaged(env, cs, g);
    Navigation.StartsOrdered(cs, 1, j - 1);
    Navigation.StartsOrdered(cs, j - 1, j);
    NothingFoundOverDamage(env, cs, g, j);
    BackFails(env, cb, g, s);
  }

  lemma NothingFoundOverDamage(env: Env, cs: seq<ChunkDesc>, g: Bytes, j: nat)
    requires Detectable(env, cs, g) && |g| == Start(cs, |cs|) && 2 <= j <= |cs| && Start(cs, j - 1) < Start(cs, j)
    requires !HeaderShows(env, cs, g, j - 1)
    ensures FindChunkBefore(env.h, g, Start(cs, j) - 1) == FindError
  {
    hide Detectable, Start, FindScan, ScanOrigin, HeaderShows, IsPossibleChunkBoundary;
    var target := Start(cs, j) - 1;
    var o := OriginOfDamaged(env, cs, g, target);
    Navigation.StartsOrdered(cs, j, o);
    FindOverDamage(env, cs, g, o, j - 1, target);
  }

  lemma BackFails(env: Env, cb: Option<Callback>, f: Bytes, s: Reader)
    requires s.streamLen == |f| && s.currentRecordIndex == 0 && s.currentChunkBegin > FIRST_CHUNK
    requires FindChunkBefore(env.h, f, s.currentChunkBegin - 1) == FindError
    ensures SeekBack(env, cb, f, s) == (s, SeekBackError)
  {
    hide FindChunkBefore, Seek, HavingLooked;
  }

  // ---------------------------------------------------------------- listing chunks

  function Listing(cs: seq<ChunkDesc>, k: nat): seq<(nat, nat)>
    requires k < |cs|
  {
    if IsDataChunk(cs[k]) && cs[k].records != [] then [(Start(cs, k), |cs[k].records|)] else []
  }

  /** The chunks with records a scan of the headers sees from chunk `k` on. */
  ghost function Seen(env: Env, cs: seq<ChunkDesc>, g: Bytes, k: nat): seq<(nat, nat)>
    requires k <= |cs| && |g| == Start(cs, |cs|)
    decreases |cs| - k
  {
    if k == |cs| then []
    else if !HeaderShows(env, cs, g, k) then Seen(env, cs, g, ResumesAt(env, cs, g, k))
    else Listing(cs, k) + Seen(env, cs, g, k + 1)
  }

  lemma ListingStep(env: Env, cb: Callback, f: Bytes, s: Reader, pos: nat)
    requires s.streamLen == |f|
    ensures var r, d := ReadHeaderAt(env.h, f, pos), Searching.CollectFrom(env, Some(cb), f, s, pos);
      && (r == HeaderEof ==> d == (s, Some([])))
      && (r != HeaderEof && !Readable(env.h, r) ==>
            var region := RegionFor(env.h, f, |f|, pos, None, PreviousEnd(s.log));
            d == if cb(|s.log|, region)
                 then Searching.CollectFrom(env, Some(cb), f, Repositioned(s, region), region.end)
                 else (Repositioned(s, region), None))
      && (Readable(env.h, r) ==>
            d == Searching.Listed(if Searching.HoldsRecords(r.ch) then [(r.chunkBegin, r.ch.NumRecords())] else [],
                                  Searching.CollectFrom(env, Some(cb), f, s, EndOf(pos, r.ch))))
  {
    HeaderEndAdvances(env.h, f, pos);
    hide ReadHeaderAt, EndOf, RegionFor, LengthAfterHeader, Searching.HoldsRecords, Searching.Listed;
  }

  lemma HoldsRecordsIff(h: Hash, c: ChunkDesc)
    requires |c.data| < TWO_64 && |c.records| < CH.TWO_56 && c.decodedSize < TWO_64
    ensures Searching.HoldsRecords(HeaderOf(h, c)) <==> IsDataChunk(c) && c.records != []
  {
    WrittenHeaderFields(h, c);
  }

  /** Of the chunks listed, those that survive can be searched, and no others. */
  lemma SearchableIffSurvives(env: Env, cs: seq<ChunkDesc>, g: Bytes, k: nat)
    requires Detectable(env, cs, g) && |g| == Start(cs, |cs|) && 0 < k < |cs| && IsDataChunk(cs[k])
    ensures Searching.OfChunk(env, g, Start(cs, k)) == if Survives(env, cs, g, k) then cs[k].records else []
  {
    hide Detectable, Start, End, ParseChunkAt, FateOf, ReadEnd, DataEnd, IsPossibleChunkBoundary, IsDataChunk;
    FrameOf(env, cs, g, k);
    FateParses(env, cs, g, k);
  }

  /** Unless it is refused, the scan that searching begins with lists every chunk with records it can see. */
  lemma {:induction false} ListingOverDamage(env: Env, cb: Callback, cs: seq<ChunkDesc>, g: Bytes, s: Reader, k: nat)
    requires Detectable(env, cs, g) && |g| == Start(cs, |cs|) && s.streamLen == |g| && 0 < k <= |cs|
    ensures var list := Searching.CollectFrom(env, Some(cb), g, s, Start(cs, k)).1;
      list.Some? ==> list.value == Seen(env, cs, g, k)
    decreases |cs| - k
  {
    hide Detectable, Start, Searching.CollectFrom, ReadHeaderAt, EndOf, RegionFor, HeaderShows, ResumesAt,
         IsPossibleChunkBoundary, IsDataChunk, Searching.HoldsRecords, HeaderOf, WellFormed;
    ListingStep(env, cb, g, s, Start(cs, k));
    if k == |cs| {
      EndIsEof(env.h, cs, g);
    } else {
      ScanSees(env, cs, g, k);
      if !HeaderShows(env, cs, g, k) {
        var m := ResumesAt(env, cs, g, k);
        LossEndsAt(env, cs, g, k, PreviousEnd(s.log));
        ListingOverDamage(env, cb, cs, g, Repositioned(s, Region(Start(cs, k), Start(cs, m))), m);
      } else {
        ChunkIsWellFormed(env, cs, g, k);
        HoldsRecordsIff(env.h, cs[k]);
        ListingOverDamage(env, cb, cs, g, s, k + 1);
      }
    }
  }
}
