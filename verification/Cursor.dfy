/**
 A reader over a written file is a cursor over the list of its records: reading, stepping back,
 seeking to a position and seeking by number move it as they move an index into that list,
 however they are mixed; and its position always leads back to where it stands.
 */
module Cursor {
  import opened Bytes
  import opened BlockArithmetic
  import opened ChunkParsing
  import opened Layout
  import opened StoredChunks
  import opened Files
  import opened ReaderSpec
  import opened Reading
  import opened Navigation
  import Recovery

  // ---------------------------------------------------------------- where positions lead

  /** How many records come before record `k` of chunk `i`; an index past the chunk's end means its end. */
  function RankOf(cs: seq<ChunkDesc>, i: nat, k: nat): nat
    requires i <= |cs|
  {
    RecordsBefore(cs, i) + Min(k, CountAt(cs, i))
  }

  predicate Points(cs: seq<ChunkDesc>, pos: RecordPosition, m: nat, i: nat) {
    i <= |cs| && CanonicalChunkAddress(pos.chunkBegin) == Start(cs, i) && RankOf(cs, i, pos.recordIndex) == m
  }

  /** The position is one of a chunk or of the end of the file, and stands before record number `m`. */
  ghost predicate LeadsTo(cs: seq<ChunkDesc>, pos: RecordPosition, m: nat) {
    exists i: nat :: Points(cs, pos, m, i)
  }

  /** The reader stands before record number `m`, and so does its position. */
  ghost predicate At(cs: seq<ChunkDesc>, s: Reader, m: nat) {
    && LeadsTo(cs, s.pos, m)
    && exists p :: StandsAt(cs, s, p) && (p.InChunk? ==> p.j <= |cs|) && IndexOf(cs, p) == m
  }

  lemma AtPlace(cs: seq<ChunkDesc>, s: Reader, p: Place, i: nat)
    requires StandsAt(cs, s, p) && (p.InChunk? ==> p.j <= |cs|) && Points(cs, s.pos, IndexOf(cs, p), i)
    ensures At(cs, s, IndexOf(cs, p))
  {
    hide StandsAt, IndexOf, Points;
  }

  lemma PlaceOf(cs: seq<ChunkDesc>, s: Reader, m: nat) returns (p: Place)
    requires At(cs, s, m)
    ensures StandsAt(cs, s, p) && (p.InChunk? ==> p.j <= |cs|) && IndexOf(cs, p) == m
  {
    hide StandsAt, IndexOf, LeadsTo;
    p :| StandsAt(cs, s, p) && (p.InChunk? ==> p.j <= |cs|) && IndexOf(cs, p) == m;
  }

  lemma PointsToStart(cs: seq<ChunkDesc>, i: nat, k: nat)
    requires i <= |cs|
    ensures Points(cs, RecordPosition(Start(cs, i), k), RankOf(cs, i, k), i)
  {
    hide RankOf;
    CanonicalFacts(Start(cs, i));
  }

  // ---------------------------------------------------------------- seeking to a position

  /** What a seek to an address leaves behind, by what loading there finds. */
  lemma SeekState(env: Env, cb: Option<Callback>, f: Bytes, s: Reader, p: RecordPosition)
    requires s.streamLen == |f|
    ensures var c, load := CanonicalChunkAddress(p.chunkBegin), LoadFrom(env, f, CanonicalChunkAddress(p.chunkBegin));
      var (s', ok) := ReaderSpec.Seek(env, cb, f, s, p);
      && (load.Loaded? ==>
            var k := Min(if load.begin == c then p.recordIndex else 0, |load.records|);
            && ok && s'.decoder == Some(Decoder(load.records, k)) && s'.nextChunkFilePos == load.end
            && s'.currentChunkBegin == load.begin && s'.currentRecordIndex == k && s'.pos == RecordPosition(c, k))
      && (load.LoadEof? ==>
            && ok && s'.decoder.None? && s'.nextChunkFilePos == load.at && s'.currentRecordIndex == 0
            && s'.currentChunkBegin == Touched(env, f, c, c) && s'.pos == RecordPosition(c, p.recordIndex))
      && (!load.LoadFailed? ==> s'.lastPos == s.lastPos && s'.log == s.log && s'.streamLen == |f|)
  {
    hide LoadFrom, Touched, TryRecover, CanonicalChunkAddress;
  }

  /** With no records behind chunk `i`, a seek there has looked at every chunk up to the last. */
  lemma {:induction false} TouchedAtEnd(env: Env, cs: seq<ChunkDesc>, f: Bytes, i: nat, current: nat)
    requires IsFile(env, cs, f) && i <= |cs| && LoadFrom(env, f, Start(cs, i)).LoadEof?
    ensures Touched(env, f, Start(cs, i), current) == if i == |cs| then current else Start(cs, |cs| - 1)
    decreases |cs| - i
  {
    hide IsFile, PrefixOfFile, WholeFile, FullyVisible, ParseChunkAt, End, Start, IsPossibleChunkBoundary;
    FileFacts(env, cs, f);
    if i == |cs| {
      EndOfWrittenFile(env, cs, f);
    } else {
      ChunkOfFileParses(env, cs, f, i);
      StartsOrdered(cs, i + 1, |cs|);
      ChunkEndIsNextStart(cs, i);
      TouchedNext(env, cs, f, i, current);
    }
  }

  lemma {:induction false} TouchedNext(env: Env, cs: seq<ChunkDesc>, f: Bytes, i: nat, current: nat)
    requires IsFile(env, cs, f) && i < |cs| && LoadFrom(env, f, Start(cs, i)).LoadEof?
    requires ParseChunkAt(env, f, Start(cs, i)) == Expected(Start(cs, i), cs[i])
    requires End(Start(cs, i), cs[i]) == Start(cs, i + 1)
    ensures Touched(env, f, Start(cs, i), current) == Start(cs, |cs| - 1)
    decreases |cs| - i, 0
  {
    hide IsFile, ParseChunkAt, End, Start, IsPossibleChunkBoundary;
    TouchedAtEnd(env, cs, f, i + 1, Start(cs, i));
  }

  /** The place of a reader that has sought to chunk `i` and found no record there or behind. */
  lemma PlaceOfEnd(cs: seq<ChunkDesc>, s: Reader, i: nat) returns (p: Place)
    requires i <= |cs| && |cs| > 0 && RecordlessBetween(cs, i, |cs|)
    requires s.streamLen == s.nextChunkFilePos == Start(cs, |cs|)
    requires s.decoder.None? && s.currentRecordIndex == 0
    requires s.currentChunkBegin == if i == |cs| then Start(cs, i) else Start(cs, |cs| - 1)
    ensures StandsAt(cs, s, p) && (p.InChunk? ==> p.j <= |cs|) && IndexOf(cs, p) == RecordsBefore(cs, i)
  {
    StartFacts(cs);
    hide Start, IsDataChunk;
    RecordlessCount(cs, i, |cs|);
    if i == |cs| {
      p := InChunk(|cs|, 0, |cs|);
    } else {
      RecordlessCount(cs, |cs| - 1, |cs|);
      p := if |cs| == 1 then Beginning(1) else InChunk(|cs| - 1, 0, |cs|);
    }
  }

  lemma PlaceOfLoaded(cs: seq<ChunkDesc>, s: Reader, i: nat, j: nat, index: nat)
    requires i <= j < |cs| && j > 0 && RecordlessBetween(cs, i, j) && IsDataChunk(cs[j])
    requires var k := Min(if j == i then index else 0, |cs[j].records|);
      && s.decoder == Some(Decoder(cs[j].records, k)) && s.nextChunkFilePos == Start(cs, j + 1)
      && s.currentChunkBegin == Start(cs, j) && s.currentRecordIndex == k && s.streamLen == Start(cs, |cs|)
    ensures var k := Min(if j == i then index else 0, |cs[j].records|);
      && StandsAt(cs, s, InChunk(j, k, j + 1)) && IndexOf(cs, InChunk(j, k, j + 1)) == RankOf(cs, i, index)
      && RankOf(cs, i, k) == RankOf(cs, i, index)
  {
    hide Start, IsDataChunk;
    RecordlessCount(cs, i, j);
  }

  /**
   A seek to any chunk of a written file, with any index: the reader then stands before the
   record meant, the index being cut off at the chunk's end.
   */
  lemma SeekLands(env: Env, cb: Option<Callback>, cs: seq<ChunkDesc>, f: Bytes, s: Reader, pos: RecordPosition, i: nat)
    requires IsFile(env, cs, f) && s.streamLen == |f|
    requires i <= |cs| && CanonicalChunkAddress(pos.chunkBegin) == Start(cs, i)
    ensures var (s', ok) := ReaderSpec.Seek(env, cb, f, s, pos);
      ok && At(cs, s', RankOf(cs, i, pos.recordIndex)) && s'.lastPos == s.lastPos && s'.log == s.log
  {
    hide IsFile, PrefixOfFile, LoadFrom, Touched, ReaderSpec.Seek, StandsAt, Start, IsPossibleChunkBoundary,
         IsDataChunk, RecordlessBetween, CanonicalChunkAddress, At, Points, RankOf, IndexOf;
    FileFacts(env, cs, f);
    SeekState(env, cb, f, s, pos);
    var s' := ReaderSpec.Seek(env, cb, f, s, pos).0;
    var j := LoadOfFile(env, cs, f, i);
    if LoadFrom(env, f, Start(cs, i)).Loaded? {
      DataChunkIsNotFirst(env, cs, f, j);
      StartsOrdered(cs, i, j);
      PlaceOfLoaded(cs, s', i, j, pos.recordIndex);
      PointsToStart(cs, i, s'.pos.recordIndex);
      AtPlace(cs, s', InChunk(j, s'.currentRecordIndex, j + 1), i);
    } else {
      TouchedAtEnd(env, cs, f, i, Start(cs, i));
      var p := PlaceOfEnd(cs, s', i);
      NoRecordsThere(cs, i, pos.recordIndex);
      PointsToStart(cs, i, pos.recordIndex);
      AtPlace(cs, s', p, i);
    }
  }

  lemma NoRecordsThere(cs: seq<ChunkDesc>, i: nat, k: nat)
    requires i <= |cs| && RecordlessBetween(cs, i, |cs|)
    ensures RankOf(cs, i, k) == RecordsBefore(cs, i)
  {
  }

  // ---------------------------------------------------------------- seeking by number

  /** How many records of the chunks from `i` on have a numeric position below `t`. */
  function CountBelow(cs: seq<ChunkDesc>, i: nat, t: nat): nat
    requires i <= |cs|
    decreases |cs| - i
  {
    if i == |cs| then 0
    else
      Min(|cs[i].records|, if Start(cs, i) < t then t - Start(cs, i) else 0) + CountBelow(cs, i + 1, t)
  }

  /** Every chunk has as many positions as records. */
  ghost predicate HaveRoom(cs: seq<ChunkDesc>) {
    forall c | 0 <= c < |cs| :: HasRoom(cs, c)
  }

  predicate HasRoom(cs: seq<ChunkDesc>, c: nat)
    requires c < |cs|
  {
    Start(cs, c) + |cs[c].records| <= Start(cs, c + 1)
  }

  lemma RoomOf(cs: seq<ChunkDesc>, c: nat)
    requires HaveRoom(cs) && c < |cs|
    ensures Start(cs, c) + |cs[c].records| <= Start(cs, c + 1)
  {
    hide Start;
    assert HasRoom(cs, c);
  }

  lemma ChunksHaveRoom(env: Env, cs: seq<ChunkDesc>, f: Bytes)
    requires IsFile(env, cs, f)
    ensures HaveRoom(cs)
  {
    hide IsFile, Start, IsPossibleChunkBoundary;
    forall c | 0 <= c < |cs|
      ensures HasRoom(cs, c)
    {
      HeaderOfFile(env, cs, f, c);
    }
  }

  lemma {:induction false} NoneBelow(cs: seq<ChunkDesc>, i: nat, t: nat)
    requires i <= |cs| && t <= Start(cs, i)
    ensures CountBelow(cs, i, t) == 0
    decreases |cs| - i
  {
    hide Start;
    if i < |cs| {
      StartsOrdered(cs, i, i + 1);
      NoneBelow(cs, i + 1, t);
    }
  }

  /** The records that are counted are those before the one the number leads to. */
  lemma {:induction false} BelowIsBefore(cs: seq<ChunkDesc>, i: nat, j: nat, k: nat, t: nat)
    requires i <= j < |cs| && k < |cs[j].records|
    requires HaveRoom(cs)
    ensures Start(cs, j) + k < t <==> RecordsBefore(cs, j) + k < RecordsBefore(cs, i) + CountBelow(cs, i, t)
    decreases j - i
  {
    hide Start, HaveRoom;
    RoomOf(cs, i);
    if i < j {
      BelowIsBefore(cs, i + 1, j, k, t);
      StartsOrdered(cs, i + 1, j);
      assert RecordsBefore(cs, i + 1) == RecordsBefore(cs, i) + |cs[i].records|;
      if t <= Start(cs, i + 1) {
        NoneBelow(cs, i + 1, t);
        CountsOrdered(cs, i + 1, j);
      }
    } else if t <= Start(cs, i + 1) {
      NoneBelow(cs, i + 1, t);
    }
  }

  /** The walk meets the end of the file. */
  lemma ScanEnds(env: Env, cb: Option<Callback>, cs: seq<ChunkDesc>, f: Bytes, s: Reader, t: nat)
    requires IsFile(env, cs, f) && s.streamLen == |f|
    ensures var (s', ok) := SeekScan(env, cb, f, s, Start(cs, |cs|), t);
      ok && At(cs, s', RecordsBefore(cs, |cs|)) && s'.lastPos == s.lastPos && s'.log == s.log
  {
    FileFacts(env, cs, f);
    HeaderOfFile(env, cs, f, |cs|);
    hide IsFile, PrefixOfFile, WholeFile, Start, IsPossibleChunkBoundary, ReadHeaderAt, EndOf, ReaderSpec.Seek,
         TryRecover, StandsAt, At, Points, RankOf, IndexOf;
    var (s', ok) := SeekScan(env, cb, f, s, Start(cs, |cs|), t);
    assert s' == AtEndOfScan(s, Start(cs, |cs|)) && ok;
    hide SeekScan;
    NothingBehindEnd(cs);
    var p := PlaceOfEnd(cs, s', |cs|);
    PointsToStart(cs, |cs|, 0);
    RankOfEnd(cs);
    AtPlace(cs, s', p, |cs|);
  }

  lemma NothingBehindEnd(cs: seq<ChunkDesc>)
    ensures RecordlessBetween(cs, |cs|, |cs|)
  {
  }

  lemma RankOfEnd(cs: seq<ChunkDesc>)
    ensures RankOf(cs, |cs|, 0) == RecordsBefore(cs, |cs|)
  {
  }

  /** One turn of the walk, at a chunk of the file. */
  lemma ScanTurnOfFile(env: Env, cb: Option<Callback>, cs: seq<ChunkDesc>, f: Bytes, s: Reader, i: nat, t: nat)
    requires IsFile(env, cs, f) && s.streamLen == |f| && i < |cs|
    ensures var b, n := Start(cs, i), |cs[i].records|;
      SeekScan(env, cb, f, s, b, t) ==
        if b >= t then ReaderSpec.Seek(env, cb, f, s, RecordPosition(b, 0))
        else if b + n > t then ReaderSpec.Seek(env, cb, f, s, RecordPosition(b, t - b))
        else SeekScan(env, cb, f, s, Start(cs, i + 1), t)
  {
    HeaderOfFile(env, cs, f, i);
    hide IsFile, Start, IsPossibleChunkBoundary, ReadHeaderAt, EndOf, ReaderSpec.Seek, TryRecover;
  }

  /** What one turn of the walk does to the number of records below the target. */
  lemma BelowStep(cs: seq<ChunkDesc>, i: nat, t: nat)
    requires i < |cs| && Start(cs, i) + |cs[i].records| <= Start(cs, i + 1)
    ensures var b, m := Start(cs, i), RecordsBefore(cs, i) + CountBelow(cs, i, t);
      && (b >= t ==> RankOf(cs, i, 0) == m)
      && (b < t < b + |cs[i].records| ==> RankOf(cs, i, t - b) == m)
      && (b < t && b + |cs[i].records| <= t ==> RecordsBefore(cs, i + 1) + CountBelow(cs, i + 1, t) == m)
  {
    hide Start;
    if t <= Start(cs, i) {
      NoneBelow(cs, i, t);
    } else if t < Start(cs, i) + |cs[i].records| {
      NoneBelow(cs, i + 1, t);
    }
    assert RecordsBefore(cs, i + 1) == RecordsBefore(cs, i) + |cs[i].records|;
  }

  lemma EndStep(cs: seq<ChunkDesc>, t: nat)
    ensures CountBelow(cs, |cs|, t) == 0
  {
  }

  lemma {:induction false} WalkLands(env: Env, cb: Option<Callback>, cs: seq<ChunkDesc>, f: Bytes, s: Reader, i: nat,
                                     t: nat)
    requires IsFile(env, cs, f) && s.streamLen == |f| && i <= |cs|
    ensures var (s', ok) := SeekScan(env, cb, f, s, Start(cs, i), t);
      ok && At(cs, s', RecordsBefore(cs, i) + CountBelow(cs, i, t)) && s'.lastPos == s.lastPos && s'.log == s.log
    decreases |cs| - i
  {
    hide IsFile, SeekScan, Start, IsPossibleChunkBoundary, CanonicalChunkAddress, ReaderSpec.Seek, At, RankOf,
         CountBelow, RecordsBefore, HaveRoom;
    if i == |cs| {
      EndStep(cs, t);
      ScanEnds(env, cb, cs, f, s, t);
    } else {
      var b, n := Start(cs, i), |cs[i].records|;
      ChunksHaveRoom(env, cs, f);
      RoomOf(cs, i);
      ScanTurnOfFile(env, cb, cs, f, s, i, t);
      BelowStep(cs, i, t);
      CanonicalStart(cs, i);
      if b >= t {
        SeekLands(env, cb, cs, f, s, RecordPosition(b, 0), i);
      } else if b + n > t {
        SeekLands(env, cb, cs, f, s, RecordPosition(b, t - b), i);
      } else {
        WalkLands(env, cb, cs, f, s, i + 1, t);
      }
    }
  }

  lemma CanonicalStart(cs: seq<ChunkDesc>, i: nat)
    requires i <= |cs|
    ensures CanonicalChunkAddress(Start(cs, i)) == Start(cs, i)
  {
    CanonicalFacts(Start(cs, i));
  }

  /**
   Seeking by number, for every target: the reader then stands before the first record whose
   numeric position is not below the target, or at the end of the file if there is none.
   */
  lemma NumericSeekLands(env: Env, cb: Option<Callback>, cs: seq<ChunkDesc>, f: Bytes, s: Reader, t: nat)
    requires IsFile(env, cs, f) && s.streamLen == |f|
    ensures var (s', ok) := SeekNumeric(env, cb, f, s, t);
      ok && At(cs, s', CountBelow(cs, 0, t)) && s'.lastPos == s.lastPos && s'.log == s.log
    ensures t >= |f| ==> CountBelow(cs, 0, t) == |RecordsFrom(cs, 0)|
  {
    hide IsFile, SeekScan, SeekNumeric, Start, IsPossibleChunkBoundary, At;
    FileFacts(env, cs, f);
    SeekNumericIsTheWalk(env, cb, cs, f, s, t);
    WalkLands(env, cb, cs, f, s, 1, t);
    FirstHoldsNone(env, cs, f, t);
    ChunksHaveRoom(env, cs, f);
    hide CountBelow, RecordsBefore;
    if t >= |f| {
      AllBelow(cs, 0, t);
      RecordTotal(cs, 0);
    }
  }

  /** A record is among those counted exactly if its numeric position is below the target. */
  lemma CountsThoseBelow(env: Env, cs: seq<ChunkDesc>, f: Bytes, j: nat, k: nat, t: nat)
    requires IsFile(env, cs, f) && j < |cs| && k < |cs[j].records|
    ensures RecordPosition(Start(cs, j), k).Numeric() < t <==> RankOf(cs, j, k) < CountBelow(cs, 0, t)
  {
    hide IsFile, Start, CountBelow, HaveRoom;
    ChunksHaveRoom(env, cs, f);
    BelowIsBefore(cs, 0, j, k, t);
  }

  lemma FirstHoldsNone(env: Env, cs: seq<ChunkDesc>, f: Bytes, t: nat)
    requires IsFile(env, cs, f)
    ensures |cs| > 0 && RecordsBefore(cs, 1) == 0 && CountBelow(cs, 0, t) == CountBelow(cs, 1, t)
  {
    hide Start, IsPossibleChunkBoundary;
    assert cs[0].records == [];
    assert RecordsBefore(cs, 1) == RecordsBefore(cs, 0) + |cs[0].records|;
  }

  lemma {:induction false} AllBelow(cs: seq<ChunkDesc>, i: nat, t: nat)
    requires i <= |cs| && t >= Start(cs, |cs|)
    requires HaveRoom(cs)
    ensures RecordsBefore(cs, i) + CountBelow(cs, i, t) == RecordsBefore(cs, |cs|)
    decreases |cs| - i
  {
    hide Start;
    if i < |cs| {
      AllBelow(cs, i + 1, t);
      RoomOf(cs, i);
      StartsOrdered(cs, i + 1, |cs|);
      assert RecordsBefore(cs, i + 1) == RecordsBefore(cs, i) + |cs[i].records|;
    }
  }

  // ---------------------------------------------------------------- reading and stepping back

  lemma {:induction false} EofKeepsPos(env: Env, cb: Option<Callback>, cs: seq<ChunkDesc>, f: Bytes, s: Reader,
                                       p: Place)
    requires IsFile(env, cs, f) && StandsAt(cs, s, p) && (p.InChunk? ==> p.j <= |cs|)
    requires LeadsTo(cs, s.pos, IndexOf(cs, p)) && ReadRecord(env, cb, f, s).1 == EndOfFile
    ensures LeadsTo(cs, ReadRecord(env, cb, f, s).0.pos, IndexOf(cs, p))
    decreases Gap(f, s.nextChunkFilePos)
  {
    hide ReadRecord, AtRest, LoadFrom, Gap, IsFile, PrefixOfFile, WholeFile, Start, IsPossibleChunkBoundary,
         RecordlessBetween, IndexOf, IsDataChunk, TryRecover, LeadsTo, StandsAt, RecordsFrom, Recovery.PendingRecords;
    FileFacts(env, cs, f);
    if s.decoder.Some? && s.decoder.value.HasNext() {
      RecordAtHand(env, cb, f, s);
    } else {
      ReadRecordLoads(env, cb, f, s);
      NextOfPlace(cs, s, p);
      var j := LoadOfFile(env, cs, f, p.next);
      Recovery.LoadDecreases(env, f, s.nextChunkFilePos);
      match LoadFrom(env, f, s.nextChunkFilePos) {
        case Loaded(b, e, records) =>
          DataChunkIsNotFirst(env, cs, f, j);
          PlaceAfterLoad(cs, s, p, j);
          var s1, p1 := AfterLoad(s.(decoder := None), b, e, records), InChunk(j, 0, j + 1);
          LoadedLeads(cs, s1, j);
          EofKeepsPos(env, cb, cs, f, s1, p1);
        case LoadEof(at) =>
        case LoadFailed(_, _) =>
      }
    }
  }

  lemma NextOfPlace(cs: seq<ChunkDesc>, s: Reader, p: Place)
    requires StandsAt(cs, s, p)
    ensures p.next <= |cs| && s.nextChunkFilePos == Start(cs, p.next) && s.streamLen == Start(cs, |cs|)
  {
  }

  lemma LoadedLeads(cs: seq<ChunkDesc>, s: Reader, j: nat)
    requires j < |cs| && s.pos == RecordPosition(Start(cs, j), 0)
    ensures LeadsTo(cs, s.pos, IndexOf(cs, InChunk(j, 0, j + 1)))
  {
    hide Start;
    PointsToStart(cs, j, 0);
  }

  lemma RecordAtHand(env: Env, cb: Option<Callback>, f: Bytes, s: Reader)
    requires s.decoder.Some? && s.decoder.value.HasNext()
    ensures ReadRecord(env, cb, f, s).1.GotRecord?
  {
    hide LoadFrom, Gap, TryRecover;
  }

  lemma ReadLeads(cs: seq<ChunkDesc>, s: Reader, j: nat, k: nat, next: nat)
    requires StandsAt(cs, s, InChunk(j, k, next)) && s.pos == RecordPosition(Start(cs, j), k) && j <= |cs|
    ensures At(cs, s, RecordsBefore(cs, j) + k)
  {
    hide Start, IsDataChunk;
    PointsToStart(cs, j, k);
    assert k <= CountAt(cs, j) && RankOf(cs, j, k) == RecordsBefore(cs, j) + k;
    AtPlace(cs, s, InChunk(j, k, next), j);
  }

  /** A read returns the record the reader stands before, or meets the end of the file behind the last one. */
  lemma ReadMoves(env: Env, cb: Option<Callback>, cs: seq<ChunkDesc>, f: Bytes, s: Reader, m: nat)
    requires IsFile(env, cs, f) && At(cs, s, m)
    ensures var all := RecordsFrom(cs, 0);
      var (s', r) := ReadRecord(env, cb, f, s);
      if m < |all| then r == GotRecord(all[m]) && At(cs, s', m + 1) && s'.streamLen == |f|
      else r == EndOfFile && At(cs, s', m) && s'.streamLen == |f|
  {
    hide IsFile, ReadRecord, StandsAt, IndexOf, LeadsTo, Start, RecordsFrom;
    var p := PlaceOf(cs, s, m);
    var (s', r) := ReadRecord(env, cb, f, s);
    var p' := ReadThere(env, cb, cs, f, s, p);
    FileFacts(env, cs, f);
    NextOfPlace(cs, s', p');
    PlaceIsInFile(cs, s', p');
    if m < |RecordsFrom(cs, 0)| {
      IndexInChunk(cs, p');
      ReadLeads(cs, s', p'.j, p'.k, p'.next);
    } else {
      EofKeepsPos(env, cb, cs, f, s, p);
    }
  }

  lemma IndexInChunk(cs: seq<ChunkDesc>, p: Place)
    requires p.InChunk? && p.j <= |cs|
    ensures IndexOf(cs, p) == RecordsBefore(cs, p.j) + p.k
  {
  }

  /** A step back leads to the record before, and from the first one nowhere. */
  lemma BackMoves(env: Env, cb: Option<Callback>, cs: seq<ChunkDesc>, f: Bytes, s: Reader, m: nat)
    requires IsFile(env, cs, f) && At(cs, s, m)
    ensures var (s', r) := SeekBack(env, cb, f, s);
      if m > 0 then r == SteppedBack && At(cs, s', m - 1) && s'.lastPos == s.lastPos && s'.streamLen == |f|
      else r == NoPrevious && s' == s
  {
    hide IsFile, SeekBack, StandsAt, IndexOf, LeadsTo, Start;
    var p := PlaceOf(cs, s, m);
    var p' := StepBackThere(env, cb, cs, f, s, p);
    FileFacts(env, cs, f);
    if m > 0 {
      var s' := SeekBack(env, cb, f, s).0;
      NextOfPlace(cs, s', p');
      IndexInChunk(cs, p');
      ReadLeads(cs, s', p'.j, p'.k, p'.next);
    }
  }

  // ---------------------------------------------------------------- any moves

  /** What a caller can do; `ToPosition` takes the address of a chunk or of the end of the file. */
  datatype Move = Read | StepBack | ToPosition(pos: RecordPosition) | ToNumber(target: nat)

  datatype Outcome = Returned(record: Bytes) | NoRecordLeft | Stepped | NoRecordBefore | Sought | Failed

  /** What the reader does. */
  function Moved(env: Env, cb: Option<Callback>, f: Bytes, s: Reader, move: Move): (Reader, Outcome) {
    match move
    case Read =>
      var (s', r) := ReadRecord(env, cb, f, s);
      (s', match r case GotRecord(record) => Returned(record) case EndOfFile => NoRecordLeft case ReadError => Failed)
    case StepBack =>
      var (s', r) := SeekBack(env, cb, f, s);
      (s', match r case SteppedBack => Stepped case NoPrevious => NoRecordBefore case SeekBackError => Failed)
    case ToPosition(pos) =>
      var (s', ok) := ReaderSpec.Seek(env, cb, f, s, pos);
      (s', if ok then Sought else Failed)
    case ToNumber(target) =>
      var (s', ok) := SeekNumeric(env, cb, f, s, target);
      (s', if ok then Sought else Failed)
  }

  /** The chunk whose address the position has, the end of the file counting as one. */
  predicate IsAddress(cs: seq<ChunkDesc>, pos: RecordPosition, i: nat) {
    i <= |cs| && CanonicalChunkAddress(pos.chunkBegin) == Start(cs, i)
  }

  ghost predicate Addressed(cs: seq<ChunkDesc>, move: Move) {
    move.ToPosition? ==> exists i: nat :: IsAddress(cs, move.pos, i)
  }

  /** What a cursor over the list of records does. */
  ghost function CursorMoved(cs: seq<ChunkDesc>, m: nat, move: Move): (nat, Outcome)
    requires Addressed(cs, move)
  {
    match move
    case Read => if m < |RecordsFrom(cs, 0)| then (m + 1, Returned(RecordsFrom(cs, 0)[m])) else (m, NoRecordLeft)
    case StepBack => if m > 0 then (m - 1, Stepped) else (m, NoRecordBefore)
    case ToPosition(pos) =>
      var i: nat :| IsAddress(cs, pos, i);
      (RankOf(cs, i, pos.recordIndex), Sought)
    case ToNumber(target) => (CountBelow(cs, 0, target), Sought)
  }

  lemma MoveIsCursorMove(env: Env, cb: Option<Callback>, cs: seq<ChunkDesc>, f: Bytes, s: Reader, m: nat, move: Move)
    requires IsFile(env, cs, f) && At(cs, s, m) && s.streamLen == |f| && Addressed(cs, move)
    ensures var (s', o) := Moved(env, cb, f, s, move);
      var (m', o') := CursorMoved(cs, m, move);
      o == o' && At(cs, s', m') && s'.streamLen == |f|
  {
    hide IsFile, ReadRecord, SeekBack, ReaderSpec.Seek, SeekNumeric, At, RankOf, CountBelow, RecordsFrom, Start,
         CanonicalChunkAddress;
    match move {
      case Read => ReadMoves(env, cb, cs, f, s, m);
      case StepBack => BackMoves(env, cb, cs, f, s, m);
      case ToPosition(pos) =>
        var m' := CursorMoved(cs, m, move).0;
        var i: nat :| IsAddress(cs, pos, i) && m' == RankOf(cs, i, pos.recordIndex);
        SeekLands(env, cb, cs, f, s, pos, i);
        LengthAt(env, cs, f, ReaderSpec.Seek(env, cb, f, s, pos).0, m');
      case ToNumber(target) =>
        NumericSeekLands(env, cb, cs, f, s, target);
        LengthAt(env, cs, f, SeekNumeric(env, cb, f, s, target).0, CountBelow(cs, 0, target));
    }
  }

  lemma LengthAt(env: Env, cs: seq<ChunkDesc>, f: Bytes, s: Reader, m: nat)
    requires IsFile(env, cs, f) && At(cs, s, m)
    ensures s.streamLen == |f|
  {
    hide IsFile, LeadsTo, StandsAt, IndexOf, Start;
    FileFacts(env, cs, f);
    var p := PlaceOf(cs, s, m);
    NextOfPlace(cs, s, p);
  }

  function AllMoved(env: Env, cb: Option<Callback>, f: Bytes, s: Reader, moves: seq<Move>): (Reader, seq<Outcome>)
    decreases |moves|
  {
    if moves == [] then (s, [])
    else
      var (s1, o) := Moved(env, cb, f, s, moves[0]);
      var (s2, os) := AllMoved(env, cb, f, s1, moves[1..]);
      (s2, [o] + os)
  }

  ghost function AllCursorMoved(cs: seq<ChunkDesc>, m: nat, moves: seq<Move>): (nat, seq<Outcome>)
    requires forall k | 0 <= k < |moves| :: Addressed(cs, moves[k])
    decreases |moves|
  {
    if moves == [] then (m, [])
    else
      var (m1, o) := CursorMoved(cs, m, moves[0]);
      var (m2, os) := AllCursorMoved(cs, m1, moves[1..]);
      (m2, [o] + os)
  }

  lemma {:induction false} MovesAreCursorMoves(env: Env, cb: Option<Callback>, cs: seq<ChunkDesc>, f: Bytes, s: Reader,
                                               m: nat, moves: seq<Move>)
    requires IsFile(env, cs, f) && At(cs, s, m) && s.streamLen == |f|
    requires forall k | 0 <= k < |moves| :: Addressed(cs, moves[k])
    ensures var (s', os) := AllMoved(env, cb, f, s, moves);
      var (m', os') := AllCursorMoved(cs, m, moves);
      os == os' && At(cs, s', m') && s'.streamLen == |f|
    decreases |moves|
  {
    hide IsFile, Moved, At, CursorMoved, Addressed;
    if moves != [] {
      var (s1, _) := Moved(env, cb, f, s, moves[0]);
      var (m1, _) := CursorMoved(cs, m, moves[0]);
      MoveIsCursorMove(env, cb, cs, f, s, m, moves[0]);
      MovesAreCursorMoves(env, cb, cs, f, s1, m1, moves[1..]);
    }
  }

  /**
   Any moves after opening a written file, in any order: they turn out as those of a cursor over
   the list of its records, none fails, and the position the reader then has leads any reader of
   the file to the record this one returns next.
   */
  lemma ReaderIsCursor(env: Env, cb: Option<Callback>, cs: seq<ChunkDesc>, f: Bytes, moves: seq<Move>)
    requires IsFile(env, cs, f) && forall k | 0 <= k < |moves| :: Addressed(cs, moves[k])
    ensures Open(env.h, cb, f) == Some(Initial(f))
    ensures var (s, os) := AllMoved(env, cb, f, Initial(f), moves);
      var (m, os') := AllCursorMoved(cs, 0, moves);
      os == os' && At(cs, s, m)
  {
    hide IsFile, AllMoved, AllCursorMoved, At, Open, Initial, Addressed;
    OpensAtBeginning(env, cb, cs, f);
    InitialIsAt(env, cs, f);
    MovesAreCursorMoves(env, cb, cs, f, Initial(f), 0, moves);
  }

  lemma InitialIsAt(env: Env, cs: seq<ChunkDesc>, f: Bytes)
    requires IsFile(env, cs, f) && StandsAt(cs, Initial(f), Beginning(1))
    ensures At(cs, Initial(f), 0) && Initial(f).streamLen == |f|
  {
    hide IsFile, StandsAt;
    StartFacts(cs);
    assert Points(cs, RecordPosition(0, 0), 0, 0);
  }

  lemma {:induction false} BelowFrom(cs: seq<ChunkDesc>, c: nat, i: nat, t: nat)
    requires c <= i <= |cs| && Start(cs, i) <= t
    requires HaveRoom(cs)
    ensures RecordsBefore(cs, c) + CountBelow(cs, c, t) == RecordsBefore(cs, i) + CountBelow(cs, i, t)
    decreases i - c
  {
    hide Start, CountBelow, RecordsBefore, HaveRoom;
    if c < i {
      StartsOrdered(cs, c, c + 1);
      StartsOrdered(cs, c + 1, i);
      RoomOf(cs, c);
      BelowStep(cs, c, t);
      BelowFrom(cs, c + 1, i, t);
    }
  }

  /** The numeric form of a position in a chunk counts the records before it. */
  lemma NumberOfPosition(env: Env, cs: seq<ChunkDesc>, f: Bytes, i: nat, k: nat)
    requires IsFile(env, cs, f) && i <= |cs| && k <= CountAt(cs, i)
    ensures CountBelow(cs, 0, RecordPosition(Start(cs, i), k).Numeric()) == RankOf(cs, i, k)
  {
    hide IsFile, Start, CountBelow, HaveRoom;
    ChunksHaveRoom(env, cs, f);
    var t := Start(cs, i) + k;
    BelowFrom(cs, 0, i, t);
    if i == |cs| {
      EndStep(cs, t);
    } else {
      RoomOf(cs, i);
      BelowStep(cs, i, t);
      if 0 < k == |cs[i].records| {
        NoneBelow(cs, i + 1, t);
      }
    }
  }

  /** After a record has been read, the numeric form of the reader's position leads to the next one as well. */
  lemma NumberLeadsOn(env: Env, cb: Option<Callback>, cs: seq<ChunkDesc>, f: Bytes, s: Reader, m: nat, s2: Reader)
    requires IsFile(env, cs, f) && At(cs, s, m) && s2.streamLen == |f| && ReadRecord(env, cb, f, s).1.GotRecord?
    ensures var s1 := ReadRecord(env, cb, f, s).0;
      var (s3, ok) := SeekNumeric(env, cb, f, s2, s1.pos.Numeric());
      ok && ReadRecord(env, cb, f, s3).1 == ReadRecord(env, cb, f, s1).1
  {
    hide IsFile, ReadRecord, SeekNumeric, StandsAt, LeadsTo, RankOf, Start, CountBelow, RecordsFrom, RecordsBefore;
    var (s1, r) := ReadRecord(env, cb, f, s);
    var p := PlaceOf(cs, s, m);
    var p' := ReadThere(env, cb, cs, f, s, p);
    hide At;
    ReadMoves(env, cb, cs, f, s, m);
    IndexIsRank(cs, s1, p');
    NumberOfPosition(env, cs, f, p'.j, p'.k);
    NumericSeekLands(env, cb, cs, f, s2, s1.pos.Numeric());
    ReadMoves(env, cb, cs, f, s1, m + 1);
    ReadMoves(env, cb, cs, f, SeekNumeric(env, cb, f, s2, s1.pos.Numeric()).0, m + 1);
  }

  lemma IndexIsRank(cs: seq<ChunkDesc>, s: Reader, p: Place)
    requires StandsAt(cs, s, p) && p.InChunk?
    ensures p.j <= |cs| && p.k <= CountAt(cs, p.j) && IndexOf(cs, p) == RankOf(cs, p.j, p.k)
  {
    hide Start, IsDataChunk;
  }

  /**
   Wherever a reader has come to on a written file, seeking to its position with any reader of
   the file, and reading, gives what it would return itself.
   */
  lemma PositionLeadsOn(env: Env, cb: Option<Callback>, cs: seq<ChunkDesc>, f: Bytes, s: Reader, m: nat, s2: Reader)
    requires IsFile(env, cs, f) && At(cs, s, m) && s2.streamLen == |f|
    ensures var (s3, ok) := ReaderSpec.Seek(env, cb, f, s2, s.pos);
      ok && At(cs, s3, m) && ReadRecord(env, cb, f, s3).1 == ReadRecord(env, cb, f, s).1
  {
    hide IsFile, ReadRecord, ReaderSpec.Seek, StandsAt, IndexOf, RankOf, Start;
    var i: nat :| Points(cs, s.pos, m, i);
    hide At;
    SeekLands(env, cb, cs, f, s2, s.pos, i);
    ReadMoves(env, cb, cs, f, s, m);
    ReadMoves(env, cb, cs, f, ReaderSpec.Seek(env, cb, f, s2, s.pos).0, m);
  }
}
