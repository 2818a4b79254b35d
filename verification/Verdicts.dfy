/**
 What the answers of the recovery callback do. A call goes on behind a region exactly if the
 region was accepted, and fails exactly if its last region was refused; so draining a stream
 takes one call for each record, one for each refusal, and one for the end of the file.
 */
module Verdicts {
  import opened Bytes
  import opened BlockArithmetic
  import opened ChunkParsing
  import opened ReaderSpec
  import opened Recovery

  /** Every region reported in between was accepted, except the last one of a call that was refused. */
  ghost predicate Heeded(cb: Callback, before: seq<Region>, after: seq<Region>, refused: bool) {
    && before <= after && (refused ==> |before| < |after|)
    && forall i | |before| <= i < |after| :: cb(i, after[i]) <==> !(refused && i == |after| - 1)
  }

  /** With a callback its answers are heeded; without one nothing is reported. */
  ghost predicate Asked(cb: Option<Callback>, before: seq<Region>, after: seq<Region>, refused: bool) {
    if cb.Some? then Heeded(cb.value, before, after, refused) else after == before
  }

  lemma NothingAsked(cb: Option<Callback>, log: seq<Region>)
    ensures Asked(cb, log, log, false)
  {
  }

  lemma AskedInTurn(cb: Option<Callback>, a: seq<Region>, b: seq<Region>, c: seq<Region>, refused: bool)
    requires Asked(cb, a, b, false) && Asked(cb, b, c, refused)
    ensures Asked(cb, a, c, refused)
  {
    if cb.Some? {
      forall i | |a| <= i < |c|
        ensures cb.value(i, c[i]) <==> !(refused && i == |c| - 1)
      {
        if i < |b| {
          assert c[i] == b[i];
        }
      }
    }
  }

  lemma RecoveryAsks(h: Hash, cb: Option<Callback>, f: Bytes, s: Reader, at: nat, trusted: Option<nat>)
    ensures var (s', go) := TryRecover(h, cb, f, s, at, trusted);
      Asked(cb, s.log, s'.log, !go) && (go ==> cb.Some?)
  {
    hide RegionFor;
  }

  // ---------------------------------------------------------------- reading

  lemma {:induction false} ReadRecordAsks(env: Env, cb: Option<Callback>, f: Bytes, s: Reader)
    ensures var (s', r) := ReadRecord(env, cb, f, s); Asked(cb, s.log, s'.log, r.ReadError?)
    decreases Gap(f, s.nextChunkFilePos)
  {
    hide ReadRecord, LoadFrom, TryRecover, Gap, AtRest, Asked;
    NothingAsked(cb, s.log);
    var (s', r) := ReadRecord(env, cb, f, s);
    if s.decoder.Some? && s.decoder.value.HasNext() {
      TakeAsksNothing(env, cb, f, s);
    } else {
      ReadRecordLoads(env, cb, f, s);
      LoadDecreases(env, f, s.nextChunkFilePos);
      var s0, load := AtRest(env, f, s), LoadFrom(env, f, s.nextChunkFilePos);
      RestKeepsLog(env, f, s);
      if load.Loaded? {
        ReadRecordAsks(env, cb, f, AfterLoad(s0, load.begin, load.end, load.records));
      } else if load.LoadFailed? {
        var s1 := s0.(nextChunkFilePos := load.at);
        var (s2, go) := TryRecover(env.h, cb, f, s1, load.at, load.trustedEnd);
        RecoveryAsks(env.h, cb, f, s1, load.at, load.trustedEnd);
        if go {
          ReadRecordAsks(env, cb, f, s2);
          AskedInTurn(cb, s.log, s2.log, s'.log, r.ReadError?);
        }
      }
    }
  }

  /** A call fails exactly if the callback refused a region, which is then the last it was shown. */
  lemma ReadRecordHeeds(env: Env, cb: Callback, f: Bytes, s: Reader)
    ensures var (s', r) := ReadRecord(env, Some(cb), f, s); Heeded(cb, s.log, s'.log, r.ReadError?)
  {
    hide ReadRecord, Heeded;
    ReadRecordAsks(env, Some(cb), f, s);
  }

  lemma TakeAsksNothing(env: Env, cb: Option<Callback>, f: Bytes, s: Reader)
    requires s.decoder.Some? && s.decoder.value.HasNext()
    ensures var (s', r) := ReadRecord(env, cb, f, s); r.GotRecord? && s'.log == s.log
  {
    hide LoadFrom, Gap;
  }

  lemma RestKeepsLog(env: Env, f: Bytes, s: Reader)
    ensures AtRest(env, f, s).log == s.log
  {
  }

  // ---------------------------------------------------------------- opening and seeking

  /** Opening asks the callback only about a damaged preamble, and succeeds then exactly if it accepts. */
  lemma OpeningHeeds(h: Hash, cb: Callback, f: Bytes)
    requires !(f == [] || PreambleIsIntact(h, f))
    ensures var region := RegionFor(h, f, |f|, 0, None, None);
      && (Open(h, Some(cb), f).Some? <==> cb(0, region))
      && (Open(h, Some(cb), f).Some? ==>
            Open(h, Some(cb), f).value.log == [region] && Open(h, Some(cb), f).value.nextChunkFilePos == region.end)
  {
    hide RegionFor, PreambleIsIntact;
  }

  /** A seek fails exactly if the callback refuses the region it meets, or there is one to report and no callback. */
  lemma SeekAsks(env: Env, cb: Option<Callback>, f: Bytes, s: Reader, p: RecordPosition)
    ensures var (s', ok) := Seek(env, cb, f, s, p);
      && Asked(cb, s.log, s'.log, !ok) && |s'.log| <= |s.log| + 1
      && (cb.None? ==> (ok <==> !LoadFrom(env, f, CanonicalChunkAddress(p.chunkBegin)).LoadFailed?))
  {
    hide LoadFrom, RegionFor, Touched, LengthAfterLoad, CanonicalChunkAddress;
  }

  lemma {:induction false} SeekScanAsks(env: Env, cb: Option<Callback>, f: Bytes, s: Reader, scanPos: nat, numeric: nat)
    ensures var (s', ok) := SeekScan(env, cb, f, s, scanPos, numeric); Asked(cb, s.log, s'.log, !ok)
    decreases Gap(f, scanPos)
  {
    HeaderEndAdvances(env.h, f, scanPos);
    hide ReadHeaderAt, EndOf, TryRecover, Seek, Asked, LengthAfterHeader;
    NothingAsked(cb, s.log);
    var r, s0 := ReadHeaderAt(env.h, f, scanPos), HavingRead(env.h, f, s, scanPos);
    if r != HeaderEof && !Readable(env.h, r) {
      var (s1, go) := TryRecover(env.h, cb, f, s0, scanPos, None);
      RecoveryAsks(env.h, cb, f, s0, scanPos, None);
      if go {
        SeekScanAsks(env, cb, f, s1, s1.nextChunkFilePos, numeric);
        AskedInTurn(cb, s.log, s1.log, SeekScan(env, cb, f, s, scanPos, numeric).0.log,
                    !SeekScan(env, cb, f, s, scanPos, numeric).1);
      }
    } else if r != HeaderEof {
      SeekAsks(env, cb, f, s0, RecordPosition(scanPos, 0));
      if scanPos < numeric {
        SeekAsks(env, cb, f, s0, RecordPosition(scanPos, numeric - scanPos));
      }
      SeekScanAsks(env, cb, f, s0, EndOf(scanPos, r.ch), numeric);
    }
  }

  /** A seek by numeric position fails exactly if the callback refused a region. */
  lemma SeekNumericAsks(env: Env, cb: Option<Callback>, f: Bytes, s: Reader, numeric: nat)
    ensures var (s', ok) := SeekNumeric(env, cb, f, s, numeric); Asked(cb, s.log, s'.log, !ok)
  {
    hide SeekScan, ScanOrigin, Asked;
    var s0 := s.(streamLen := LengthAfterOrigin(f, s.streamLen, numeric));
    SeekScanAsks(env, cb, f, s0, ScanOrigin(env.h, f, numeric), numeric);
  }

  lemma {:induction false} SeekBackFromAsks(env: Env, cb: Option<Callback>, f: Bytes, s: Reader, chunkPos: nat)
    ensures var (s', r) := SeekBackFrom(env, cb, f, s, chunkPos);
      Asked(cb, s.log, s'.log, r == SeekBackError && s'.log != s.log)
    decreases chunkPos
  {
    hide FindChunkBefore, Seek, Asked, HavingLooked;
    NothingAsked(cb, s.log);
    if chunkPos > FIRST_CHUNK {
      var s0 := HavingLooked(env.h, f, s, chunkPos - 1);
      LookingKeepsLog(env.h, f, s, chunkPos - 1);
      match FindChunkBefore(env.h, f, chunkPos - 1) {
        case Found(begin, ch) =>
          if ch.NumRecords() > 0 {
            var p := RecordPosition(begin, ch.NumRecords() - 1);
            SeekAsks(env, cb, f, s0, p);
            RefusalShows(cb, s0.log, Seek(env, cb, f, s0, p).0.log);
          } else if begin < chunkPos {
            SeekBackFromAsks(env, cb, f, s0, begin);
          }
        case _ =>
      }
    }
  }

  lemma LookingKeepsLog(h: Hash, f: Bytes, s: Reader, target: nat)
    ensures HavingLooked(h, f, s, target).log == s.log
  {
  }

  lemma RefusalShows(cb: Option<Callback>, before: seq<Region>, after: seq<Region>)
    ensures Asked(cb, before, after, true) ==> (cb.Some? <==> before != after)
    ensures before == after && Asked(cb, before, after, true) ==> Asked(cb, before, after, false)
  {
  }

  /** A step back that meets a refusal fails; the only other failure is a header that cannot be read, asking nothing. */
  lemma SeekBackAsks(env: Env, cb: Option<Callback>, f: Bytes, s: Reader)
    ensures var (s', r) := SeekBack(env, cb, f, s);
      Asked(cb, s.log, s'.log, r == SeekBackError && s'.log != s.log)
  {
    hide SeekBackFrom, Seek, Asked;
    if s.currentRecordIndex > 0 {
      var p := RecordPosition(s.currentChunkBegin, s.currentRecordIndex - 1);
      SeekAsks(env, cb, f, s, p);
      RefusalShows(cb, s.log, Seek(env, cb, f, s, p).0.log);
    } else {
      SeekBackFromAsks(env, cb, f, s, s.currentChunkBegin);
    }
  }

  // ---------------------------------------------------------------- runs

  /** How many of the regions from number `from` on the callback refuses. */
  function Refusals(cb: Callback, log: seq<Region>, from: nat): nat
    decreases |log| - from
  {
    if from >= |log| then 0 else (if cb(from, log[from]) then 0 else 1) + Refusals(cb, log, from + 1)
  }

  lemma {:induction false} RefusalsOfCall(cb: Callback, all: seq<Region>, before: seq<Region>, after: seq<Region>,
                                          refused: bool)
    requires Heeded(cb, before, after, refused) && after <= all
    ensures Refusals(cb, all, |before|) == (if refused then 1 else 0) + Refusals(cb, all, |after|)
    decreases |after| - |before|
  {
    if |before| < |after| {
      var k := |before|;
      assert all[k] == after[k];
      assert Refusals(cb, all, k) == (if cb(k, all[k]) then 0 else 1) + Refusals(cb, all, k + 1);
      if k + 1 < |after| {
        RefusalsOfCall(cb, all, after[..k + 1], after, refused);
      }
    }
  }

  /** The calls it still takes to reach the end of the file, that of the end not counted. */
  function CallsLeft(env: Env, cb: Callback, f: Bytes, s: Reader): nat {
    |RemainingRecords(env, f, s)| + Refusals(cb, s.log + RemainingRegions(env, f, s), |s.log|)
  }

  /** Each call takes off exactly one, and the end of the file is met exactly when none is left. */
  lemma CallTakesOne(env: Env, cb: Callback, f: Bytes, s: Reader)
    requires s.streamLen == |f|
    ensures var (s', r) := ReadRecord(env, Some(cb), f, s);
      && s'.streamLen == |f|
      && (r.EndOfFile? <==> CallsLeft(env, cb, f, s) == 0)
      && (!r.EndOfFile? ==> CallsLeft(env, cb, f, s) == CallsLeft(env, cb, f, s') + 1)
  {
    hide ReadRecord, RemainingRecords, RemainingRegions, Refusals, Heeded;
    var (s', r) := ReadRecord(env, Some(cb), f, s);
    ReadRecordAdvances(env, cb, f, s);
    ReadRecordHeeds(env, cb, f, s);
    var all := s.log + RemainingRegions(env, f, s);
    RefusalsOfCall(cb, all, s.log, s'.log, r.ReadError?);
    if r.EndOfFile? {
      assert all == s'.log + [] == s'.log;
      NoRefusals(cb, all);
    }
  }

  lemma NoRefusals(cb: Callback, log: seq<Region>)
    ensures Refusals(cb, log, |log|) == 0
  {
  }

  /**
   Draining any bytes takes exactly as many calls as there are records and refusals, and one
   for the end of the file: no earlier call meets it. So a callback that accepts everything
   lets no error through, and one that refuses everything gives one for each region.
   */
  lemma {:induction false} DrainTakesExactly(env: Env, cb: Callback, f: Bytes, s: Reader, n: nat)
    requires s.streamLen == |f|
    ensures var (_, rs) := Run(env, Some(cb), f, s, n);
      |rs| == n && forall k | 0 <= k < n :: rs[k].EndOfFile? <==> k >= CallsLeft(env, cb, f, s)
    decreases n
  {
    hide ReadRecord, CallsLeft;
    if n > 0 {
      var (s1, r) := ReadRecord(env, Some(cb), f, s);
      CallTakesOne(env, cb, f, s);
      DrainTakesExactly(env, cb, f, s1, n - 1);
      if r.EndOfFile? {
        EndStays(env, cb, f, s);
      }
    }
  }

  lemma EndStays(env: Env, cb: Callback, f: Bytes, s: Reader)
    requires s.streamLen == |f| && CallsLeft(env, cb, f, s) == 0
    ensures CallsLeft(env, cb, f, ReadRecord(env, Some(cb), f, s).0) == 0
  {
    hide ReadRecord, RemainingRecords, RemainingRegions;
    CallTakesOne(env, cb, f, s);
    ReadRecordAdvances(env, cb, f, s);
    var s' := ReadRecord(env, Some(cb), f, s).0;
    assert s'.log + [] == s'.log;
    NoRefusals(cb, s'.log);
  }

  /** With a callback that accepts everything no call fails. */
  lemma AcceptingNeverFails(env: Env, cb: Callback, f: Bytes, s: Reader)
    requires forall i, region :: cb(i, region)
    ensures !ReadRecord(env, Some(cb), f, s).1.ReadError?
  {
    hide ReadRecord, Heeded;
    ReadRecordHeeds(env, cb, f, s);
    RefusalIsHeard(cb, s.log, ReadRecord(env, Some(cb), f, s).0.log);
  }

  lemma RefusalIsHeard(cb: Callback, before: seq<Region>, after: seq<Region>)
    ensures Heeded(cb, before, after, true) ==> |after| > 0 && !cb(|after| - 1, after[|after| - 1])
  {
  }

  // ---------------------------------------------------------------- what the reader tells

  /** Whether the last record is to be trusted: it is until a region is reported, and again with the next record. */
  ghost predicate TellsValidity(s: Reader, s': Reader, gotRecord: bool) {
    s'.lastRecordIsValid == (gotRecord || (s.lastRecordIsValid && s'.log == s.log))
  }

  /**
   On any bytes: a record returned is valid and its position is the last position; behind a
   region reported none is; and the end of the file is remembered.
   */
  lemma {:induction false} ReadRecordTells(env: Env, cb: Option<Callback>, f: Bytes, s: Reader)
    ensures var (s', r) := ReadRecord(env, cb, f, s);
      && TellsValidity(s, s', r.GotRecord?)
      && (r.GotRecord? ==> s'.currentRecordIndex > 0
                           && s'.lastPos == RecordPosition(s'.currentChunkBegin, s'.currentRecordIndex - 1)
                           && s'.pos == RecordPosition(s'.currentChunkBegin, s'.currentRecordIndex))
      && (!r.GotRecord? ==> s'.lastPos == s.lastPos)
      && (r.EndOfFile? ==> s'.atEof && s'.decoder.None?)
    decreases Gap(f, s.nextChunkFilePos)
  {
    hide LoadFrom, TryRecover, Gap, LengthAfterLoad;
    if !(s.decoder.Some? && s.decoder.value.HasNext()) {
      hide ReadRecord;
      ReadRecordLoads(env, cb, f, s);
      LoadDecreases(env, f, s.nextChunkFilePos);
      var s0, load := AtRest(env, f, s), LoadFrom(env, f, s.nextChunkFilePos);
      if load.Loaded? {
        ReadRecordTells(env, cb, f, AfterLoad(s0, load.begin, load.end, load.records));
      } else if load.LoadFailed? {
        var s1 := s0.(nextChunkFilePos := load.at);
        var (s2, go) := TryRecover(env.h, cb, f, s1, load.at, load.trustedEnd);
        RecoveryTells(env.h, cb, f, s1, load.at, load.trustedEnd);
        if go {
          ReadRecordTells(env, cb, f, s2);
          ReadRecordAsks(env, cb, f, s2);
        }
      }
    }
  }

  lemma RecoveryTells(h: Hash, cb: Option<Callback>, f: Bytes, s: Reader, at: nat, trusted: Option<nat>)
    ensures var (s', go) := TryRecover(h, cb, f, s, at, trusted);
      && TellsValidity(s, s', false) && s'.lastPos == s.lastPos && (go ==> |s.log| < |s'.log|)
      && (cb.Some? ==> s'.decoder.None? && !s'.atEof)
  {
    hide RegionFor;
  }

  // ---------------------------------------------------------------- the length of the stream

  /** A reader that knows the length of the stream goes on knowing it. */
  lemma {:induction false} ReadRecordKnowsLength(env: Env, cb: Option<Callback>, f: Bytes, s: Reader)
    requires s.streamLen == |f|
    ensures ReadRecord(env, cb, f, s).0.streamLen == |f|
    decreases Gap(f, s.nextChunkFilePos)
  {
    hide LoadFrom, TryRecover, Gap, LengthAfterLoad;
    if !(s.decoder.Some? && s.decoder.value.HasNext()) {
      hide ReadRecord;
      ReadRecordLoads(env, cb, f, s);
      LoadDecreases(env, f, s.nextChunkFilePos);
      var s0, load := AtRest(env, f, s), LoadFrom(env, f, s.nextChunkFilePos);
      if load.Loaded? {
        ReadRecordKnowsLength(env, cb, f, AfterLoad(s0, load.begin, load.end, load.records));
      } else if load.LoadFailed? {
        var s1 := s0.(nextChunkFilePos := load.at);
        var (s2, go) := TryRecover(env.h, cb, f, s1, load.at, load.trustedEnd);
        RecoveryKnowsLength(env.h, cb, f, s1, load.at, load.trustedEnd);
        if go {
          ReadRecordKnowsLength(env, cb, f, s2);
        }
      }
    }
  }

  lemma RecoveryKnowsLength(h: Hash, cb: Option<Callback>, f: Bytes, s: Reader, at: nat, trusted: Option<nat>)
    ensures TryRecover(h, cb, f, s, at, trusted).0.streamLen == s.streamLen
  {
    hide RegionFor;
  }

  lemma SeekKnowsLength(env: Env, cb: Option<Callback>, f: Bytes, s: Reader, p: RecordPosition)
    requires s.streamLen == |f|
    ensures Seek(env, cb, f, s, p).0.streamLen == |f|
  {
    hide LoadFrom, RegionFor, Touched, CanonicalChunkAddress;
  }

  // ---------------------------------------------------------------- without a callback

  lemma {:induction false} LoadFailsAgain(env: Env, f: Bytes, pos: nat)
    ensures var r := LoadFrom(env, f, pos); r.LoadFailed? ==> LoadFrom(env, f, r.at) == r
    decreases Gap(f, pos)
  {
    hide ParseChunkAt, CanonicalChunkAddress, IsPossibleChunkBoundary;
    ParseExtent(env, f, pos);
    CanonicalFacts(pos);
    var p := ParseChunkAt(env, f, pos);
    if p.ParseSkip? {
      CanonicalFacts(p.e);
      LoadFailsAgain(env, f, p.e);
    } else if p.ParseTrusted? {
      ParsesFromCanonical(env, f, pos);
    }
  }

  /** Both addresses of a chunk that follows a block header parse alike. */
  lemma ParsesFromCanonical(env: Env, f: Bytes, pos: nat)
    ensures ParseChunkAt(env, f, CanonicalChunkAddress(pos)) == ParseChunkAt(env, f, pos)
  {
    hide ReadDataAt, ClassifyChunk, ReadEnd, HeaderReadFrom, ClaimsHold, PointsBack;
    CanonicalFacts(pos);
  }

  /** Without a callback an error reports nothing and stays: the next call meets it again. */
  lemma {:induction false} ErrorStays(env: Env, f: Bytes, s: Reader)
    requires s.streamLen == |f|
    ensures var (s', r) := ReadRecord(env, None, f, s);
      && s'.log == s.log
      && (r.ReadError? ==> ReadRecord(env, None, f, s') == (s', ReadError))
    decreases Gap(f, s.nextChunkFilePos)
  {
    hide ReadRecord, LoadFrom, Gap;
    if s.decoder.Some? && s.decoder.value.HasNext() {
      TakeAsksNothing(env, None, f, s);
    } else {
      ReadRecordLoads(env, None, f, s);
      LoadDecreases(env, f, s.nextChunkFilePos);
      var s0, load := s.(decoder := None), LoadFrom(env, f, s.nextChunkFilePos);
      if load.Loaded? {
        ErrorStays(env, f, AfterLoad(s0, load.begin, load.end, load.records));
      } else if load.LoadFailed? {
        var s1 := s0.(nextChunkFilePos := load.at);
        LoadFailsAgain(env, f, s.nextChunkFilePos);
        ReadRecordLoads(env, None, f, s1);
      }
    }
  }
}
