/** Binary search for a record in a sorted file, over the chunks by their first records and then inside one chunk. */
module Searching {
  import opened Bytes
  import opened BlockArithmetic
  import opened ChunkParsing
  import opened Layout
  import opened StoredChunks
  import opened Files
  import opened ReaderSpec
  import opened Reading
  import opened Navigation
  import opened RecordReaders
  import opened Verdicts
  import CH = ChunkHeaders
  import V = Varint

  /** How a record stands to what is searched for: before it, equal, after it. */
  datatype Ordering = Less | Equal | Greater {
    function Rank(): nat { match this case Less => 0 case Equal => 1 case Greater => 2 }
  }

  type Comparator = Bytes -> Ordering

  datatype SearchResult = SearchFound | SearchNotFound | SearchError

  /** The comparator never steps down along the records. */
  ghost predicate Monotone(test: Comparator, records: seq<Bytes>) {
    forall a, b | 0 <= a < b < |records| :: test(records[a]).Rank() <= test(records[b]).Rank()
  }

  // ---------------------------------------------------------------- listing the chunks with records

  /** A header that stands for records a search may look at. */
  predicate HoldsRecords(ch: CH.ChunkHeader) {
    ch.NumRecords() > 0 && (ch.Type() == Some(CH.Simple) || ch.Type() == Some(CH.Transposed))
  }

  /** The list of one more chunk in front of another list, if there is one. */
  function Listed(first: seq<(nat, nat)>, rest: (Reader, Option<seq<(nat, nat)>>)): (Reader, Option<seq<(nat, nat)>>) {
    (rest.0, if rest.1.Some? then Some(first + rest.1.value) else None)
  }

  /** The scan over the headers from `scanPos`: position and record count of every chunk with records. */
  function CollectFrom(env: Env, cb: Option<Callback>, f: Bytes, s: Reader, scanPos: nat): (Reader, Option<seq<(nat,
                       nat)>>)
    decreases Gap(f, scanPos)
  {
    HeaderEndAdvances(env.h, f, scanPos);
    var r, s0 := ReadHeaderAt(env.h, f, scanPos), HavingRead(env.h, f, s, scanPos);
    if r == HeaderEof then (s0, Some([]))
    else if !Readable(env.h, r) then
      var (s1, go) := TryRecover(env.h, cb, f, s0, scanPos, None);
      if go then CollectFrom(env, cb, f, s1, s1.nextChunkFilePos) else (s1, None)
    else
      Listed(if HoldsRecords(r.ch) then [(r.chunkBegin, r.ch.NumRecords())] else [],
             CollectFrom(env, cb, f, s0, EndOf(scanPos, r.ch)))
  }

  /**
   Whatever the bytes, no more chunks are listed than there are positions left, and none with more records
   than bytes.
   */
  lemma {:induction false} ListIsBounded(env: Env, cb: Option<Callback>, f: Bytes, s: Reader, scanPos: nat)
    ensures var list := CollectFrom(env, cb, f, s, scanPos).1;
      list.Some? ==> |list.value| <= Gap(f, scanPos) && forall c | c in list.value :: c.1 <= |f|
    decreases Gap(f, scanPos)
  {
    HeaderEndAdvances(env.h, f, scanPos);
    HeaderClaims(env.h, f, scanPos);
    hide ReadHeaderAt, EndOf, Readable, HoldsRecords, TryRecover;
    var r, s0 := ReadHeaderAt(env.h, f, scanPos), HavingRead(env.h, f, s, scanPos);
    if r != HeaderEof && !Readable(env.h, r) {
      var (s1, go) := TryRecover(env.h, cb, f, s0, scanPos, None);
      if go {
        ListIsBounded(env, cb, f, s1, s1.nextChunkFilePos);
      }
    } else if r != HeaderEof {
      ListIsBounded(env, cb, f, s0, EndOf(scanPos, r.ch));
    }
  }

  lemma HeaderClaims(h: Hash, f: Bytes, pos: nat)
    ensures var r := ReadHeaderAt(h, f, pos); Readable(h, r) ==> r.HeaderOk? && r.ch.NumRecords() <= |f|
  {
  }

  /** The scan fails exactly if the callback refuses a region, or there is one to report and no callback. */
  lemma {:induction false} CollectAsks(env: Env, cb: Option<Callback>, f: Bytes, s: Reader, scanPos: nat)
    ensures var (s', list) := CollectFrom(env, cb, f, s, scanPos); Asked(cb, s.log, s'.log, list.None?)
    decreases Gap(f, scanPos)
  {
    HeaderEndAdvances(env.h, f, scanPos);
    hide ReadHeaderAt, EndOf, TryRecover, Asked, LengthAfterHeader, HoldsRecords;
    NothingAsked(cb, s.log);
    var r, s0 := ReadHeaderAt(env.h, f, scanPos), HavingRead(env.h, f, s, scanPos);
    if r != HeaderEof && !Readable(env.h, r) {
      var (s1, go) := TryRecover(env.h, cb, f, s0, scanPos, None);
      RecoveryAsks(env.h, cb, f, s0, scanPos, None);
      if go {
        CollectAsks(env, cb, f, s1, s1.nextChunkFilePos);
        var (s', list) := CollectFrom(env, cb, f, s, scanPos);
        AskedInTurn(cb, s.log, s1.log, s'.log, list.None?);
      }
    } else if r != HeaderEof {
      CollectAsks(env, cb, f, s0, EndOf(scanPos, r.ch));
    }
  }

  function DataChunks(cs: seq<ChunkDesc>, i: nat): seq<(nat, nat)>
    requires i <= |cs|
    decreases |cs| - i
  {
    if i == |cs| then []
    else (if |cs[i].records| > 0 then [(Start(cs, i), |cs[i].records|)] else []) + DataChunks(cs, i + 1)
  }

  /** On an intact file the list is that of exactly the chunks with records, and nothing is recovered. */
  lemma {:induction false} CollectOfFile(env: Env, cb: Option<Callback>, cs: seq<ChunkDesc>, f: Bytes, s: Reader,
                                         i: nat)
    requires IsFile(env, cs, f) && s.streamLen == |f| && i <= |cs|
    ensures CollectFrom(env, cb, f, s, Start(cs, i)) == (s, Some(DataChunks(cs, i)))
    decreases |cs| - i
  {
    hide ReadHeaderAt, EndOf, IsFile, Start, IsPossibleChunkBoundary, TryRecover, HavingRead;
    HeaderOfFile(env, cs, f, i);
    if i < |cs| {
      DataChunkHeader(env, cs, f, i);
      CollectOfFile(env, cb, cs, f, s, i + 1);
    }
  }

  /** The position and record count of every chunk with records, from the headers alone. */
  method CollectDataChunks(reader: RecordReader) returns (r: Option<seq<(nat, nat)>>)
    requires reader.Valid()
    modifies reader
    ensures reader.Valid() && reader.source == old(reader.source)
    ensures (reader.State(), r)
      == CollectFrom(reader.env, reader.recovery, reader.source, old(reader.State()), FIRST_CHUNK)
  {
    hide ReadHeaderAt, EndOf, Gap, CollectFrom, LengthAfterHeader, TryRecover;
    reader.pendingTrustedEnd := None;
    var scanPos: nat := FIRST_CHUNK;
    var chunks: seq<(nat, nat)> := [];
    ghost var whole := CollectFrom(reader.env, reader.recovery, reader.source, reader.State(), scanPos);
    NothingListed(whole);
    while true
      invariant reader.Valid() && reader.source == old(reader.source) && reader.pendingTrustedEnd == None
      invariant Listed(chunks, CollectFrom(reader.env, reader.recovery, reader.source, reader.State(), scanPos))
        == whole
      decreases Gap(reader.source, scanPos)
    {
      CollectStep(reader.env, reader.recovery, reader.source, reader.State(), scanPos, chunks);
      var header := reader.ReadChunkHeaderAt(scanPos);
      if header.HeaderEof? {
        return Some(chunks);
      }
      if !Readable(reader.env.h, header) {
        var go := reader.TryRecoverAt(scanPos);
        if !go {
          return None;
        }
        scanPos := reader.nextChunkFilePos;
        continue;
      }
      if HoldsRecords(header.ch) {
        chunks := chunks + [(header.chunkBegin, header.ch.NumRecords())];
      }
      scanPos := EndOf(scanPos, header.ch);
    }
  }

  lemma NothingListed(rest: (Reader, Option<seq<(nat, nat)>>))
    ensures Listed([], rest) == rest
  {
    if rest.1.Some? {
      assert [] + rest.1.value == rest.1.value;
    }
  }

  /** One turn of the scan, with the chunks listed so far. */
  lemma CollectStep(env: Env, cb: Option<Callback>, f: Bytes, s: Reader, scanPos: nat, chunks: seq<(nat, nat)>)
    ensures var r, s0 := ReadHeaderAt(env.h, f, scanPos), HavingRead(env.h, f, s, scanPos);
      var whole := Listed(chunks, CollectFrom(env, cb, f, s, scanPos));
      && (r == HeaderEof ==> whole == (s0, Some(chunks)))
      && (r != HeaderEof ==> forall end | scanPos < end :: Gap(f, end) < Gap(f, scanPos))
      && (r != HeaderEof && !Readable(env.h, r) ==>
            var (s1, go) := TryRecover(env.h, cb, f, s0, scanPos, None);
            whole == if go then Listed(chunks, CollectFrom(env, cb, f, s1, s1.nextChunkFilePos)) else (s1, None))
      && (Readable(env.h, r) ==> scanPos < EndOf(scanPos, r.ch))
      && (Readable(env.h, r) && HoldsRecords(r.ch) ==>
            whole == Listed(chunks + [(r.chunkBegin, r.ch.NumRecords())],
                   CollectFrom(env, cb, f, s0, EndOf(scanPos, r.ch))))
      && (Readable(env.h, r) && !HoldsRecords(r.ch) ==>
            whole == Listed(chunks, CollectFrom(env, cb, f, s0, EndOf(scanPos, r.ch))))
  {
    hide ReadHeaderAt, EndOf, TryRecover, HavingRead, HoldsRecords;
    HeaderEndAdvances(env.h, f, scanPos);
    assert chunks + [] == chunks;
    var r, s0 := ReadHeaderAt(env.h, f, scanPos), HavingRead(env.h, f, s, scanPos);
    if Readable(env.h, r) {
      var rest := CollectFrom(env, cb, f, s0, EndOf(scanPos, r.ch)).1;
      var one := [(r.chunkBegin, r.ch.NumRecords())];
      if rest.Some? {
        assert chunks + (one + rest.value) == (chunks + one) + rest.value;
        assert [] + rest.value == rest.value;
      }
    }
  }

  lemma FirstDataChunk(env: Env, cs: seq<ChunkDesc>, f: Bytes)
    requires IsFile(env, cs, f)
    ensures |cs| > 0 && Start(cs, 1) == FIRST_CHUNK
    ensures DataChunks(cs, 1) == DataChunks(cs, 0)
  {
    hide Start, IsPossibleChunkBoundary, FileImage, WellFormed;
    FileFacts(env, cs, f);
    hide PrefixOfFile, WholeFile;
    assert cs[0].records == [];
    assert [] + DataChunks(cs, 1) == DataChunks(cs, 1);
  }

  lemma DataChunkHeader(env: Env, cs: seq<ChunkDesc>, f: Bytes, i: nat)
    requires IsFile(env, cs, f) && i < |cs|
    ensures var t := CH.TypeOfByte(cs[i].typeByte);
      |cs[i].records| > 0 ==> t == Some(CH.Simple) || t == Some(CH.Transposed)
    ensures DataChunks(cs, i)
      == (if |cs[i].records| > 0 then [(Start(cs, i), |cs[i].records|)] else []) + DataChunks(cs, i + 1)
  {
    FileFacts(env, cs, f);
    if |cs[i].records| > 0 {
      ChunkWithRecordsIsData(env, cs, f, i);
    }
  }

  // ---------------------------------------------------------------- halving

  lemma {:induction false} BitLengthMonotone(m: nat, n: nat)
    requires m <= n
    ensures V.BitLength(m) <= V.BitLength(n)
    decreases n
  {
    if m > 0 {
      BitLengthMonotone(m / 2, n / 2);
    }
  }

  /** One probe halves the interval: the probes left and this one are within what was allowed. */
  lemma Halving(size: nat, rest: nat)
    requires size > 0 && rest <= size / 2
    ensures 1 + V.BitLength(rest) <= V.BitLength(size)
  {
    BitLengthMonotone(rest, size / 2);
  }

  // ---------------------------------------------------------------- the records a search can see

  /** The records of the chunk at `p`, or none if it cannot be read. */
  function OfChunk(env: Env, f: Bytes, p: nat): seq<Bytes> {
    match ParseChunkAt(env, f, p)
    case ParseData(_, _, records) => records
    case _ => []
  }

  /** The records of each chunk listed; an unreadable chunk has none. */
  function Groups(env: Env, f: Bytes, list: seq<(nat, nat)>): (r: seq<seq<Bytes>>)
    ensures |r| == |list|
    ensures forall t | 0 <= t < |list| :: r[t] == OfChunk(env, f, list[t].0)
  {
    if list == [] then [] else [OfChunk(env, f, list[0].0)] + Groups(env, f, list[1..])
  }

  /** The records of the groups from number `i` on, in order. */
  function Flat(groups: seq<seq<Bytes>>, i: nat): seq<Bytes>
    requires i <= |groups|
    decreases |groups| - i
  {
    if i == |groups| then [] else groups[i] + Flat(groups, i + 1)
  }

  function CountTo(groups: seq<seq<Bytes>>, t: nat): nat
    requires t <= |groups|
  {
    if t == 0 then 0 else CountTo(groups, t - 1) + |groups[t - 1]|
  }

  lemma {:induction false} FlatAt(groups: seq<seq<Bytes>>, i: nat, t: nat, k: nat)
    requires i <= t < |groups| && k < |groups[t]|
    ensures var m := CountTo(groups, t) - CountTo(groups, i) + k;
      0 <= m < |Flat(groups, i)| && Flat(groups, i)[m] == groups[t][k]
    decreases t - i
  {
    if i < t {
      FlatAt(groups, i + 1, t, k);
      assert CountTo(groups, i + 1) == CountTo(groups, i) + |groups[i]|;
    }
  }

  lemma {:induction false} CountsGrow(groups: seq<seq<Bytes>>, i: nat, j: nat)
    requires i <= j <= |groups|
    ensures CountTo(groups, i) <= CountTo(groups, j)
    decreases j - i
  {
    if i < j {
      CountsGrow(groups, i, j - 1);
    }
  }

  /** Which group holds record `m` of those from group `i` on. */
  lemma {:induction false} LocateRecord(groups: seq<seq<Bytes>>, i: nat, m: nat) returns (t: nat, k: nat)
    requires i <= |groups| && m < |Flat(groups, i)|
    ensures i <= t < |groups| && k < |groups[t]| && groups[t][k] == Flat(groups, i)[m]
    decreases |groups| - i
  {
    if m < |groups[i]| {
      t, k := i, m;
    } else {
      t, k := LocateRecord(groups, i + 1, m - |groups[i]|);
    }
  }

  /** Records of later groups, and later records of a group, never rank lower. */
  lemma MonotoneAcross(test: Comparator, groups: seq<seq<Bytes>>, j: nat, k: nat, j': nat, k': nat)
    requires Monotone(test, Flat(groups, 0))
    requires j < |groups| && k < |groups[j]| && j' < |groups| && k' < |groups[j']|
    requires j < j' || (j == j' && k <= k')
    ensures test(groups[j][k]).Rank() <= test(groups[j'][k']).Rank()
  {
    FlatAt(groups, 0, j, k);
    FlatAt(groups, 0, j', k');
    if j < j' {
      CountsGrow(groups, j + 1, j');
      assert CountTo(groups, j + 1) == CountTo(groups, j) + |groups[j]|;
    }
  }

  /** Some record that can be read compares equal. */
  ghost predicate Present(test: Comparator, groups: seq<seq<Bytes>>) {
    exists r :: r in Flat(groups, 0) && test(r) == Equal
  }

  ghost predicate NoMatchAmong(test: Comparator, records: seq<Bytes>) {
    forall k | 0 <= k < |records| :: test(records[k]) != Equal
  }

  /** The readable chunks before `lo` open below the target, and those from `hi` on above it. */
  ghost predicate Brackets(test: Comparator, groups: seq<seq<Bytes>>, lo: nat, hi: nat) {
    && (forall t | 0 <= t < lo && t < |groups| && groups[t] != [] :: test(groups[t][0]) == Less)
    && (forall t | hi <= t < |groups| && groups[t] != [] :: test(groups[t][0]) == Greater)
  }

  ghost predicate Unreadable(groups: seq<seq<Bytes>>, lo: nat, hi: nat) {
    hi <= |groups| && forall t | lo <= t < hi :: groups[t] == []
  }

  lemma NothingBracketed(test: Comparator, groups: seq<seq<Bytes>>)
    ensures Brackets(test, groups, 0, |groups|)
  {
  }

  /** Unreadable chunks do not matter. */
  lemma BracketUnreadable(test: Comparator, groups: seq<seq<Bytes>>, lo: nat, mid: nat, hi: nat)
    requires Brackets(test, groups, lo, hi) && lo <= mid <= hi && Unreadable(groups, mid, hi)
    ensures Brackets(test, groups, lo, mid)
  {
  }

  /** The first record of one more chunk tells of all those before it, or of all those behind it. */
  lemma BracketMore(test: Comparator, groups: seq<seq<Bytes>>, lo: nat, hi: nat, mid: nat, probe: nat)
    requires Monotone(test, Flat(groups, 0)) && lo <= mid <= probe < hi <= |groups|
    requires Brackets(test, groups, lo, hi) && Unreadable(groups, mid, probe) && groups[probe] != []
    ensures test(groups[probe][0]) == Less ==> Brackets(test, groups, probe + 1, hi)
    ensures test(groups[probe][0]) == Greater ==> Brackets(test, groups, lo, mid)
  {
    hide Monotone;
    forall t | 0 <= t < |groups| && groups[t] != []
      ensures t <= probe ==> test(groups[t][0]).Rank() <= test(groups[probe][0]).Rank()
      ensures t >= probe ==> test(groups[probe][0]).Rank() <= test(groups[t][0]).Rank()
    {
      if t <= probe {
        MonotoneAcross(test, groups, t, 0, probe, 0);
      }
      if t >= probe {
        MonotoneAcross(test, groups, probe, 0, t, 0);
      }
    }
  }

  /**
   With every readable chunk before `split` opening below the target and every other one above
   it, only the last chunk that opens below can hold it.
   */
  lemma OnlyOneCandidate(test: Comparator, groups: seq<seq<Bytes>>, split: nat)
    requires Monotone(test, Flat(groups, 0)) && split <= |groups| && Brackets(test, groups, split, split)
    requires split > 0 ==> groups[split - 1] != [] && NoMatchAmong(test, groups[split - 1])
    ensures !Present(test, groups)
  {
    hide Monotone, Flat;
    forall r | r in Flat(groups, 0)
      ensures test(r) != Equal
    {
      var m :| 0 <= m < |Flat(groups, 0)| && Flat(groups, 0)[m] == r;
      var t, k := LocateRecord(groups, 0, m);
      if t >= split {
        MonotoneAcross(test, groups, t, 0, t, k);
      } else if t < split - 1 {
        MonotoneAcross(test, groups, t, k, split - 1, 0);
      }
    }
  }

  lemma FoundIsPresent(test: Comparator, groups: seq<seq<Bytes>>, t: nat, k: nat)
    requires t < |groups| && k < |groups[t]| && test(groups[t][k]) == Equal
    ensures Present(test, groups)
  {
    FlatAt(groups, 0, t, k);
  }

  /** What the list says of a chunk that can be read is true of it. */
  ghost predicate Listable(env: Env, f: Bytes, list: seq<(nat, nat)>) {
    forall c | c in list ::
      CanonicalChunkAddress(c.0) == c.0 && (OfChunk(env, f, c.0) != [] ==> |OfChunk(env, f, c.0)| == c.1)
  }

  lemma {:induction false} ListIsListable(env: Env, cb: Option<Callback>, f: Bytes, s: Reader, scanPos: nat)
    ensures var list := CollectFrom(env, cb, f, s, scanPos).1; list.Some? ==> Listable(env, f, list.value)
    decreases Gap(f, scanPos)
  {
    HeaderEndAdvances(env.h, f, scanPos);
    ChunkIsListed(env, f, scanPos);
    hide ReadHeaderAt, EndOf, HoldsRecords, TryRecover, OfChunk, CanonicalChunkAddress, LengthAfterHeader;
    var r, s0 := ReadHeaderAt(env.h, f, scanPos), HavingRead(env.h, f, s, scanPos);
    if r != HeaderEof && !Readable(env.h, r) {
      var (s1, go) := TryRecover(env.h, cb, f, s0, scanPos, None);
      if go {
        ListIsListable(env, cb, f, s1, s1.nextChunkFilePos);
      }
    } else if r != HeaderEof {
      ListIsListable(env, cb, f, s0, EndOf(scanPos, r.ch));
    }
  }

  lemma {:induction false} CollectKnowsLength(env: Env, cb: Option<Callback>, f: Bytes, s: Reader, scanPos: nat)
    requires s.streamLen == |f|
    ensures CollectFrom(env, cb, f, s, scanPos).0.streamLen == |f|
    decreases Gap(f, scanPos)
  {
    HeaderEndAdvances(env.h, f, scanPos);
    hide ReadHeaderAt, EndOf, HoldsRecords, TryRecover, LengthAfterHeader;
    var r, s0 := ReadHeaderAt(env.h, f, scanPos), HavingRead(env.h, f, s, scanPos);
    if r != HeaderEof && !Readable(env.h, r) {
      var (s1, go) := TryRecover(env.h, cb, f, s0, scanPos, None);
      RecoveryKnowsLength(env.h, cb, f, s0, scanPos, None);
      if go {
        CollectKnowsLength(env, cb, f, s1, s1.nextChunkFilePos);
      }
    } else if r != HeaderEof {
      CollectKnowsLength(env, cb, f, s0, EndOf(scanPos, r.ch));
    }
  }

  lemma ChunkIsListed(env: Env, f: Bytes, pos: nat)
    ensures var r := ReadHeaderAt(env.h, f, pos);
      Readable(env.h, r) ==>
        && CanonicalChunkAddress(r.chunkBegin) == r.chunkBegin
        && (OfChunk(env, f, r.chunkBegin) != [] ==> |OfChunk(env, f, r.chunkBegin)| == r.ch.NumRecords())
  {
    hide ReadDataAt, ReadEnd, HeaderReadFrom, ClaimsHold, PointsBack, DecodeRecords;
    CanonicalFacts(pos);
  }

  // ---------------------------------------------------------------- reading one record of a chunk

  /** What is read without a decoder at hand comes from a chunk that begins at the cursor or behind. */
  lemma {:induction false} ReadsBehind(env: Env, cb: Option<Callback>, f: Bytes, s: Reader)
    requires s.decoder.None? || !s.decoder.value.HasNext()
    ensures var (s', r) := ReaderSpec.ReadRecord(env, cb, f, s);
      r.GotRecord? ==> s'.currentChunkBegin >= CanonicalChunkAddress(s.nextChunkFilePos)
    decreases Gap(f, s.nextChunkFilePos)
  {
    hide ReaderSpec.ReadRecord, LoadFrom, RegionFor, Gap, AtRest, CanonicalChunkAddress;
    ReadRecordLoads(env, cb, f, s);
    Recovery.LoadDecreases(env, f, s.nextChunkFilePos);
    var s0, load := AtRest(env, f, s), LoadFrom(env, f, s.nextChunkFilePos);
    LoadsBehind(env, f, s.nextChunkFilePos);
    if load.Loaded? {
      var s1 := AfterLoad(s0, load.begin, load.end, load.records);
      if load.records == [] {
        ReadsBehind(env, cb, f, s1);
      } else {
        TakesFirst(env, cb, f, s1);
      }
    } else if load.LoadFailed? && cb.Some? {
      var s1 := s0.(nextChunkFilePos := load.at);
      var (s2, go) := TryRecover(env.h, cb, f, s1, load.at, load.trustedEnd);
      RegionIsAhead(env.h, f, s1.streamLen, load.at, load.trustedEnd, PreviousEnd(s1.log));
      if go {
        ReadsBehind(env, cb, f, s2);
      }
    }
  }

  lemma {:induction false} LoadsBehind(env: Env, f: Bytes, pos: nat)
    ensures var r := LoadFrom(env, f, pos);
      && (r.Loaded? ==> CanonicalChunkAddress(pos) <= r.begin < r.end
                        && CanonicalChunkAddress(r.end) == r.end)
      && (r.LoadFailed? ==> CanonicalChunkAddress(pos) <= CanonicalChunkAddress(r.at))
    decreases Gap(f, pos)
  {
    hide ParseChunkAt, CanonicalChunkAddress, IsPossibleChunkBoundary;
    ParseExtent(env, f, pos);
    CanonicalFacts(pos);
    var p := ParseChunkAt(env, f, pos);
    if p.ParseSkip? {
      CanonicalFacts(p.e);
      LoadsBehind(env, f, p.e);
    } else if p.ParseData? {
      CanonicalFacts(p.e);
    }
  }

  lemma RegionIsAhead(h: Hash, f: Bytes, len: nat, at: nat, trusted: Option<nat>, prev: Option<nat>)
    ensures CanonicalChunkAddress(at) < CanonicalChunkAddress(RegionFor(h, f, len, at, trusted, prev).end)
  {
    hide Resync;
    CanonicalFacts(at);
  }

  lemma TakesFirst(env: Env, cb: Option<Callback>, f: Bytes, s: Reader)
    requires s.decoder.Some? && s.decoder.value.HasNext()
    ensures var (s', r) := ReaderSpec.ReadRecord(env, cb, f, s);
      r == GotRecord(s.decoder.value.records[s.decoder.value.next]) && s'.currentChunkBegin == s.currentChunkBegin
  {
    hide LoadFrom, Gap;
  }

  /** A seek into a chunk that can be read, and what it finds there; and a seek to any other chunk. */
  lemma SeekIntoChunk(env: Env, cb: Option<Callback>, f: Bytes, s: Reader, p: nat, k: nat)
    requires CanonicalChunkAddress(p) == p
    ensures var (s', ok) := ReaderSpec.Seek(env, cb, f, s, RecordPosition(p, k));
      if k < |OfChunk(env, f, p)| then
        ok && s'.decoder == Some(Decoder(OfChunk(env, f, p), k)) && s'.currentChunkBegin == p
      else
        ok ==>
          || (s'.decoder.Some? && s'.decoder.value.HasNext() && s'.currentChunkBegin > p)
          || ((s'.decoder.None? || !s'.decoder.value.HasNext()) && CanonicalChunkAddress(s'.nextChunkFilePos) > p)
          || (s'.decoder.None? && LoadFrom(env, f, s'.nextChunkFilePos).LoadEof?)
  {
    hide LoadFrom, Touched, RegionFor, LengthAfterLoad, CanonicalChunkAddress, IsPossibleChunkBoundary;
    LoadsOwnOrBehind(env, f, p);
    LoadsBehind(env, f, p);
    Recovery.LoadEofAgain(env, f, p);
    var load := LoadFrom(env, f, p);
    if load.LoadFailed? && cb.Some? {
      RegionIsAhead(env.h, f, LengthAfterLoad(env, f, s.streamLen, p), load.at, load.trustedEnd, PreviousEnd(s.log));
    }
  }

  /** Loading at `p` loads the chunk there, if it can be read, or one behind. */
  lemma LoadsOwnOrBehind(env: Env, f: Bytes, p: nat)
    requires CanonicalChunkAddress(p) == p
    ensures var load := LoadFrom(env, f, p);
      && (OfChunk(env, f, p) != [] ==> load.Loaded? && load.begin == p && load.records == OfChunk(env, f, p))
      && (load.Loaded? ==> load.begin > p || load.records == OfChunk(env, f, p))
  {
    hide ParseChunkAt, CanonicalChunkAddress, IsPossibleChunkBoundary;
    ParseExtent(env, f, p);
    var parse := ParseChunkAt(env, f, p);
    if parse.ParseSkip? {
      CanonicalFacts(parse.e);
      LoadsBehind(env, f, parse.e);
    }
  }

  /** Reading after such a seek gives the record meant, or nothing of that chunk. */
  lemma ReadInChunkAt(env: Env, cb: Option<Callback>, f: Bytes, s: Reader, p: nat, k: nat)
    requires CanonicalChunkAddress(p) == p
    ensures var (s1, ok) := ReaderSpec.Seek(env, cb, f, s, RecordPosition(p, k));
      var (s2, r) := ReaderSpec.ReadRecord(env, cb, f, s1);
      && (k < |OfChunk(env, f, p)| ==> ok && r == GotRecord(OfChunk(env, f, p)[k]) && s2.currentChunkBegin == p)
      && (k >= |OfChunk(env, f, p)| && ok && r.GotRecord? ==> s2.currentChunkBegin != p)
  {
    hide ReaderSpec.ReadRecord, ReaderSpec.Seek, LoadFrom, CanonicalChunkAddress, OfChunk;
    SeekIntoChunk(env, cb, f, s, p, k);
    var (s1, ok) := ReaderSpec.Seek(env, cb, f, s, RecordPosition(p, k));
    if s1.decoder.Some? && s1.decoder.value.HasNext() {
      TakesFirst(env, cb, f, s1);
    } else if ok {
      ReadsBehind(env, cb, f, s1);
      ReadRecordLoads(env, cb, f, s1);
    }
  }

  /** The reader knows the length of the stream. */
  predicate Measured(reader: RecordReader)
    reads reader
  {
    reader.streamLen == |reader.source|
  }

  /**
   The record at an index of the chunk at a position; `None` inside when it could not be read as a record of
   that chunk.
   */
  method ReadRecordAt(reader: RecordReader, chunkPos: nat, recordIndex: nat) returns (r: Option<Option<Bytes>>)
    requires reader.Valid() && CanonicalChunkAddress(chunkPos) == chunkPos
    modifies reader
    ensures reader.Valid() && reader.source == old(reader.source) && (old(Measured(reader)) ==> Measured(reader))
    ensures Asked(reader.recovery, old(reader.log), reader.log, r.None?)
    ensures var records := OfChunk(reader.env, reader.source, chunkPos);
      if recordIndex < |records| then r == Some(Some(records[recordIndex])) else r.Some? ==> r.value.None?
  {
    hide ReaderSpec.Seek, ReaderSpec.ReadRecord, Asked, OfChunk, CanonicalChunkAddress;
    SeekAsks(reader.env, reader.recovery, reader.source, reader.State(), RecordPosition(chunkPos, recordIndex));
    ReadInChunkAt(reader.env, reader.recovery, reader.source, reader.State(), chunkPos, recordIndex);
    if Measured(reader) {
      SeekKnowsLength(reader.env, reader.recovery, reader.source, reader.State(),
                      RecordPosition(chunkPos, recordIndex));
    }
    var ok := reader.SeekTo(RecordPosition(chunkPos, recordIndex));
    ghost var between := reader.log;
    ReadRecordAsks(reader.env, reader.recovery, reader.source, reader.State());
    if !ok {
      return None;
    }
    if Measured(reader) {
      ReadRecordKnowsLength(reader.env, reader.recovery, reader.source, reader.State());
    }
    var read := reader.ReadRecord();
    AskedInTurn(reader.recovery, old(reader.log), between, reader.log, read.ReadError?);
    if read.ReadError? {
      return None;
    }
    return Some(if read.GotRecord? && reader.currentChunkBegin == chunkPos then Some(read.record) else None);
  }

  /** The next read returns a record that compares equal. */
  ghost predicate NextMatches(reader: RecordReader, test: Comparator)
    reads reader
  {
    var r := ReaderSpec.ReadRecord(reader.env, reader.recovery, reader.source, reader.State()).1;
    r.GotRecord? && test(r.record) == Equal
  }

  /** Positions the reader at a record known to compare equal. */
  method SeekToMatch(reader: RecordReader, test: Comparator, chunkPos: nat, recordIndex: nat) returns (ok: bool)
    requires reader.Valid() && CanonicalChunkAddress(chunkPos) == chunkPos
    requires var records := OfChunk(reader.env, reader.source, chunkPos);
      recordIndex < |records| && test(records[recordIndex]) == Equal
    modifies reader
    ensures reader.Valid() && reader.source == old(reader.source) && (old(Measured(reader)) ==> Measured(reader))
    ensures Asked(reader.recovery, old(reader.log), reader.log, false)
    ensures ok && NextMatches(reader, test)
  {
    hide ReaderSpec.Seek, ReaderSpec.ReadRecord, Asked, OfChunk, CanonicalChunkAddress;
    SeekAsks(reader.env, reader.recovery, reader.source, reader.State(), RecordPosition(chunkPos, recordIndex));
    ReadInChunkAt(reader.env, reader.recovery, reader.source, reader.State(), chunkPos, recordIndex);
    if Measured(reader) {
      SeekKnowsLength(reader.env, reader.recovery, reader.source, reader.State(),
                      RecordPosition(chunkPos, recordIndex));
    }
    ok := reader.SeekTo(RecordPosition(chunkPos, recordIndex));
  }

  /** The search inside one chunk whose first record is known to come before the target. */
  method BinarySearchWithinChunk(reader: RecordReader, chunkPos: nat, numRecords: nat, test: Comparator)
    returns (r: SearchResult, calls: nat)
    requires reader.Valid() && CanonicalChunkAddress(chunkPos) == chunkPos
    requires var records := OfChunk(reader.env, reader.source, chunkPos); records != [] ==> numRecords == |records|
    modifies reader
    ensures reader.Valid() && reader.source == old(reader.source) && (old(Measured(reader)) ==> Measured(reader))
    ensures calls <= V.BitLength(numRecords)
    ensures Asked(reader.recovery, old(reader.log), reader.log, r == SearchError)
    ensures var records := OfChunk(reader.env, reader.source, chunkPos);
      && (records != [] ==> r != SearchError)
      && (r == SearchFound ==> NextMatches(reader, test) && !NoMatchAmong(test, records))
      && (r == SearchNotFound && Monotone(test, records) && (records != [] ==> test(records[0]) == Less) ==>
            NoMatchAmong(test, records))
  {
    hide ReaderSpec.ReadRecord, OfChunk, CanonicalChunkAddress, Monotone, V.BitLength, Asked, NextMatches;
    ghost var records := OfChunk(reader.env, reader.source, chunkPos);
    ghost var sorted := Monotone(test, records) && (records != [] ==> test(records[0]) == Less);
    NothingAsked(reader.recovery, reader.log);
    calls := 0;
    if numRecords == 0 {
      return SearchNotFound, 0;
    }
    var lo, hi := 1, numRecords;
    BitLengthMonotone(hi - lo, numRecords);
    while lo < hi
      invariant 1 <= lo <= hi <= numRecords
      invariant reader.Valid() && reader.source == old(reader.source) && (old(Measured(reader)) ==> Measured(reader))
      invariant Asked(reader.recovery, old(reader.log), reader.log, false)
      invariant calls + V.BitLength(hi - lo) <= V.BitLength(numRecords)
      invariant sorted ==> forall k | 0 <= k < lo && k < |records| :: test(records[k]) == Less
      invariant sorted ==> forall k | hi <= k < |records| :: test(records[k]) == Greater
    {
      var mid := lo + (hi - lo) / 2;
      ghost var before := reader.log;
      var read := ReadRecordAt(reader, chunkPos, mid);
      AskedInTurn(reader.recovery, old(reader.log), before, reader.log, read.None?);
      if read.None? {
        return SearchError, calls;
      }
      if read.value.None? {
        return SearchNotFound, calls;
      }
      var ordering := test(read.value.value);
      Halving(hi - lo, hi - mid - 1);
      Halving(hi - lo, mid - lo);
      calls := calls + 1;
      RanksAround(test, records, mid);
      match ordering {
        case Less => lo := mid + 1;
        case Greater => hi := mid;
        case Equal =>
          before := reader.log;
          var ok := SeekToMatch(reader, test, chunkPos, mid);
          AskedInTurn(reader.recovery, old(reader.log), before, reader.log, !ok);
          return if ok then SearchFound else SearchError, calls;
      }
    }
    return SearchNotFound, calls;
  }

  /** A record below the target puts every earlier one of its chunk below, one above it every later one above. */
  lemma RanksAround(test: Comparator, records: seq<Bytes>, mid: nat)
    requires mid < |records|
    ensures Monotone(test, records) && test(records[mid]) == Less ==>
      forall k | 0 <= k <= mid :: test(records[k]) == Less
    ensures Monotone(test, records) && test(records[mid]) == Greater ==>
      forall k | mid <= k < |records| :: test(records[k]) == Greater
  {
    if Monotone(test, records) {
      forall k | 0 <= k < |records|
        ensures k <= mid ==> test(records[k]).Rank() <= test(records[mid]).Rank()
        ensures k >= mid ==> test(records[mid]).Rank() <= test(records[k]).Rank()
      {
      }
    }
  }

  /** The records of one chunk are in order if all are. */
  lemma MonotoneInChunk(test: Comparator, groups: seq<seq<Bytes>>, t: nat)
    requires Monotone(test, Flat(groups, 0)) && t < |groups|
    ensures Monotone(test, groups[t])
  {
    forall a, b | 0 <= a < b < |groups[t]|
      ensures test(groups[t][a]).Rank() <= test(groups[t][b]).Rank()
    {
      MonotoneAcross(test, groups, t, a, t, b);
    }
  }

  lemma NoneUnreadable(groups: seq<seq<Bytes>>, mid: nat)
    requires mid <= |groups|
    ensures Unreadable(groups, mid, mid)
  {
  }

  lemma OneMoreUnreadable(groups: seq<seq<Bytes>>, mid: nat, probe: nat)
    requires Unreadable(groups, mid, probe) && mid <= probe < |groups|
    ensures groups[probe] == [] ==> Unreadable(groups, mid, probe + 1) && SomeUnreadable(groups)
  {
  }

  /** The nearest chunk at or after `mid` whose first record can be read. */
  method ProbeFrom(reader: RecordReader, chunks: seq<(nat, nat)>, mid: nat, hi: nat)
    returns (ok: bool, found: Option<(nat, Bytes)>)
    requires reader.Valid() && mid < hi <= |chunks| && Listable(reader.env, reader.source, chunks)
    modifies reader
    ensures reader.Valid() && reader.source == old(reader.source) && (old(Measured(reader)) ==> Measured(reader))
    ensures Asked(reader.recovery, old(reader.log), reader.log, !ok)
    ensures var groups := Groups(reader.env, reader.source, chunks);
      && (!ok ==> SomeUnreadable(groups))
      && (ok && found.None? ==> Unreadable(groups, mid, hi))
      && (ok && found.Some? ==>
            var (probe, record) := found.value;
            mid <= probe < hi && Unreadable(groups, mid, probe) && groups[probe] != [] && record == groups[probe][0])
  {
    hide OfChunk, CanonicalChunkAddress, Asked, Groups, Unreadable, SomeUnreadable;
    NothingAsked(reader.recovery, reader.log);
    ghost var groups := Groups(reader.env, reader.source, chunks);
    NoneUnreadable(groups, mid);
    var probe := mid;
    while probe < hi
      invariant mid <= probe <= hi
      invariant Asked(reader.recovery, old(reader.log), reader.log, false)
      invariant reader.Valid() && reader.source == old(reader.source) && (old(Measured(reader)) ==> Measured(reader))
      invariant Unreadable(groups, mid, probe)
    {
      ghost var before := reader.log;
      assert chunks[probe] in chunks;
      var read := ReadRecordAt(reader, chunks[probe].0, 0);
      AskedInTurn(reader.recovery, old(reader.log), before, reader.log, read.None?);
      OneMoreUnreadable(groups, mid, probe);
      if read.None? {
        return false, None;
      }
      if read.value.Some? {
        return true, Some((probe, read.value.value));
      }
      probe := probe + 1;
    }
    return true, None;
  }

  /** Where a search that found nothing leaves the reader. */
  method ParkAtEndOfStream(reader: RecordReader)
    modifies reader
    ensures reader.source == old(reader.source) && reader.pendingTrustedEnd == old(reader.pendingTrustedEnd)
    ensures reader.State() == Parked(old(reader.State()))
  {
    reader.atEof := true;
    reader.decoder := None;
    reader.nextChunkFilePos := Max(reader.streamLen, FIRST_CHUNK);
    reader.currentChunkBegin := reader.nextChunkFilePos;
    reader.currentRecordIndex := 0;
  }

  function Parked(s: Reader): Reader {
    var end := Max(s.streamLen, FIRST_CHUNK);
    s.(atEof := true, decoder := None, nextChunkFilePos := end, currentChunkBegin := end, currentRecordIndex := 0)
  }

  /**
   The reader stands behind everything it knows of: nothing is read there, unless the stream has grown or ends
   just behind a block header.
   */
  ghost predicate StandsAtEnd(reader: RecordReader)
    reads reader
  {
    var s := reader.State();
    && s == Parked(s)
    && (|reader.source| <= CanonicalChunkAddress(s.nextChunkFilePos) ==>
          ReaderSpec.ReadRecord(reader.env, reader.recovery, reader.source, s).1 == EndOfFile)
  }

  lemma ParkedReadsNothing(reader: RecordReader)
    requires reader.State() == Parked(reader.State())
    ensures StandsAtEnd(reader)
  {
    hide ReaderSpec.ReadRecord, ParseChunkAt, CanonicalChunkAddress;
    var s := reader.State();
    ParseExtent(reader.env, reader.source, s.nextChunkFilePos);
    ReadRecordLoads(reader.env, reader.recovery, reader.source, s);
  }

  /** On a written file that place is the one behind the last record. */
  lemma EndOfFileIsBehindLast(env: Env, cb: Option<Callback>, cs: seq<ChunkDesc>, f: Bytes, s: Reader)
    requires IsFile(env, cs, f) && s.streamLen == |f| && s == Parked(s)
    ensures StandsAt(cs, s, InChunk(|cs|, 0, |cs|)) && IndexOf(cs, InChunk(|cs|, 0, |cs|)) == |RecordsFrom(cs, 0)|
    ensures ReaderSpec.ReadRecord(env, cb, f, s).1 == EndOfFile
  {
    hide IsFile, ReaderSpec.ReadRecord, Start, RecordsFrom;
    FileFacts(env, cs, f);
    RecordTotal(cs, 0);
    var end := InChunk(|cs|, 0, |cs|);
    assert StandsAt(cs, s, end) && IndexOf(cs, end) == |RecordsFrom(cs, 0)|;
    hide StandsAt, IndexOf;
    var p' := ReadThere(env, cb, cs, f, s, end);
  }

  /** The number of probes allowed: logarithmic in the chunks, and in the records of one chunk. */
  predicate FewCalls(calls: nat, chunks: seq<(nat, nat)>) {
    || calls <= V.BitLength(|chunks|)
    || exists c | c in chunks :: calls <= V.BitLength(|chunks|) + V.BitLength(c.1)
  }

  ghost predicate SomeUnreadable(groups: seq<seq<Bytes>>) {
    exists t :: 0 <= t < |groups| && groups[t] == []
  }

  /** The last chunk that opens below the target, number `split - 1`, is the only one that can hold it. */
  ghost predicate Candidate(test: Comparator, groups: seq<seq<Bytes>>, split: nat) {
    && split <= |groups|
    && (split > 0 ==> groups[split - 1] != [] && test(groups[split - 1][0]) == Less)
    && (Monotone(test, Flat(groups, 0)) ==> Brackets(test, groups, split, split))
  }

  lemma Narrowed(test: Comparator, groups: seq<seq<Bytes>>, split: nat)
    requires split <= |groups| && (split > 0 ==> groups[split - 1] != [] && test(groups[split - 1][0]) == Less)
    requires Monotone(test, Flat(groups, 0)) ==> Brackets(test, groups, split, split)
    ensures Candidate(test, groups, split)
  {
  }

  /**
   The search over a list of chunks by their first records. Without a match there, all readable
   chunks before `split` open below the target and all others above it.
   */
  method FindCandidate(reader: RecordReader, test: Comparator, list: seq<(nat, nat)>)
    returns (r: Option<SearchResult>, calls: nat, split: nat)
    requires reader.Valid() && Listable(reader.env, reader.source, list)
    modifies reader
    ensures reader.Valid() && reader.source == old(reader.source) && (old(Measured(reader)) ==> Measured(reader))
    ensures split <= |list| && calls <= V.BitLength(|list|) && r != Some(SearchNotFound)
    ensures Asked(reader.recovery, old(reader.log), reader.log, r == Some(SearchError))
    ensures var groups := Groups(reader.env, reader.source, list);
      && (r == Some(SearchError) ==> SomeUnreadable(groups))
      && (r == Some(SearchFound) ==> Present(test, groups) && NextMatches(reader, test))
      && (r.None? ==> Candidate(test, groups, split))
  {
    hide OfChunk, CanonicalChunkAddress, Monotone, NextMatches, Present, V.BitLength, Brackets, Asked, Flat,
         Unreadable, Groups, SomeUnreadable, Candidate;
    ghost var groups := Groups(reader.env, reader.source, list);
    ghost var sorted := Monotone(test, Flat(groups, 0));
    NothingAsked(reader.recovery, reader.log);
    NothingBracketed(test, groups);
    var lo, hi := 0, |list|;
    calls := 0;
    while lo < hi
      invariant 0 <= lo <= hi <= |list|
      invariant reader.Valid() && reader.source == old(reader.source) && (old(Measured(reader)) ==> Measured(reader))
      invariant Asked(reader.recovery, old(reader.log), reader.log, false)
      invariant calls + V.BitLength(hi - lo) <= V.BitLength(|list|)
      invariant |groups| == |list|
      invariant lo > 0 ==> groups[lo - 1] != [] && test(groups[lo - 1][0]) == Less
      invariant sorted ==> Brackets(test, groups, lo, hi)
      decreases hi - lo
    {
      var mid := lo + (hi - lo) / 2;
      ghost var before := reader.log;
      var ok, found := ProbeFrom(reader, list, mid, hi);
      AskedInTurn(reader.recovery, old(reader.log), before, reader.log, !ok);
      if !ok {
        return Some(SearchError), calls, lo;
      }
      Halving(hi - lo, mid - lo);
      if found.None? {
        if sorted {
          BracketUnreadable(test, groups, lo, mid, hi);
        }
        hi := mid;
        continue;
      }
      var (probe, record) := found.value;
      Halving(hi - lo, hi - probe - 1);
      if sorted {
        BracketMore(test, groups, lo, hi, mid, probe);
      }
      calls := calls + 1;
      match test(record) {
        case Less => lo := probe + 1;
        case Greater => hi := mid;
        case Equal =>
          before := reader.log;
          assert list[probe] in list;
          var sought := SeekToMatch(reader, test, list[probe].0, 0);
          AskedInTurn(reader.recovery, old(reader.log), before, reader.log, !sought);
          FoundIsPresent(test, groups, probe, 0);
          return Some(if sought then SearchFound else SearchError), calls, lo;
      }
    }
    Narrowed(test, groups, lo);
    return None, calls, lo;
  }

  /** What a search over the listed chunks finds. */
  ghost predicate Finds(reader: RecordReader, test: Comparator, groups: seq<seq<Bytes>>, r: SearchResult)
    reads reader
  {
    && (r == SearchError ==> SomeUnreadable(groups))
    && (r == SearchFound ==> Present(test, groups) && NextMatches(reader, test))
    && (r == SearchNotFound ==> StandsAtEnd(reader))
    && (r == SearchNotFound && Monotone(test, Flat(groups, 0)) ==> !Present(test, groups))
  }

  /** The search over a list of chunks: first for the chunk, then inside it. */
  method SearchListed(reader: RecordReader, test: Comparator, list: seq<(nat, nat)>)
    returns (r: SearchResult, calls: nat)
    requires reader.Valid() && Listable(reader.env, reader.source, list)
    modifies reader
    ensures reader.Valid() && reader.source == old(reader.source) && (old(Measured(reader)) ==> Measured(reader))
    ensures FewCalls(calls, list)
    ensures Asked(reader.recovery, old(reader.log), reader.log, r == SearchError)
    ensures Finds(reader, test, Groups(reader.env, reader.source, list), r)
  {
    hide OfChunk, CanonicalChunkAddress, Monotone, NextMatches, Present, NoMatchAmong, Brackets, V.BitLength, FewCalls,
         Asked, Flat, StandsAtEnd, Groups, Candidate;
    ghost var groups := Groups(reader.env, reader.source, list);
    var first, probes, split := FindCandidate(reader, test, list);
    calls := probes;
    FewAmongChunks(calls, list);
    if first.Some? {
      return first.value, calls;
    }
    CandidateFacts(test, groups, split);
    if split > 0 {
      ghost var before := reader.log;
      assert list[split - 1] in list;
      var within;
      r, within := BinarySearchWithinChunk(reader, list[split - 1].0, list[split - 1].1, test);
      AskedInTurn(reader.recovery, old(reader.log), before, reader.log, r == SearchError);
      FewInsideChunk(calls, within, list, split - 1);
      calls := calls + within;
      if r != SearchNotFound {
        MatchInChunk(test, groups, split - 1);
        return;
      }
    }
    NoOtherCandidate(test, groups, split);
    ParkAtEndOfStream(reader);
    ParkedReadsNothing(reader);
    return SearchNotFound, calls;
  }

  lemma CandidateFacts(test: Comparator, groups: seq<seq<Bytes>>, split: nat)
    requires Candidate(test, groups, split)
    ensures split <= |groups| && (split > 0 ==> groups[split - 1] != [] && test(groups[split - 1][0]) == Less)
  {
  }

  lemma MatchInChunk(test: Comparator, groups: seq<seq<Bytes>>, t: nat)
    requires t < |groups|
    ensures !NoMatchAmong(test, groups[t]) ==> Present(test, groups)
  {
    if !NoMatchAmong(test, groups[t]) {
      var k :| 0 <= k < |groups[t]| && test(groups[t][k]) == Equal;
      FoundIsPresent(test, groups, t, k);
    }
  }

  lemma NoOtherCandidate(test: Comparator, groups: seq<seq<Bytes>>, split: nat)
    requires Candidate(test, groups, split)
    requires split > 0 && Monotone(test, groups[split - 1]) ==> NoMatchAmong(test, groups[split - 1])
    ensures Monotone(test, Flat(groups, 0)) ==> !Present(test, groups)
  {
    hide Brackets, Monotone, NoMatchAmong, Present;
    if Monotone(test, Flat(groups, 0)) {
      if split > 0 {
        MonotoneInChunk(test, groups, split - 1);
      }
      OnlyOneCandidate(test, groups, split);
    }
  }

  /**
   On any bytes and with any callback: the search looks among the chunks whose headers the scan
   lists. Unless a region is refused, or one is met without a callback, it finds a match exactly
   when a record of one of them that can be read is one, provided the comparator never steps down
   along these records; then the next read returns a match. The comparator is called at most
   logarithmically often in the chunks listed plus logarithmically often in the records of one of
   them, and so in the length of the stream.
   */
  method Search(reader: RecordReader, test: Comparator)
    returns (r: SearchResult, calls: nat, ghost chunks: seq<(nat, nat)>)
    requires reader.Valid()
    modifies reader
    ensures reader.Valid() && reader.source == old(reader.source) && (old(Measured(reader)) ==> Measured(reader))
    ensures FewCalls(calls, chunks) && calls <= 2 * V.BitLength(|reader.source|)
    ensures Asked(reader.recovery, old(reader.log), reader.log, r == SearchError)
    ensures var list := CollectFrom(reader.env, reader.recovery, reader.source, old(reader.State()), FIRST_CHUNK).1;
      if list.Some? then chunks == list.value else r == SearchError && calls == 0 && chunks == []
    ensures CollectFrom(reader.env, reader.recovery, reader.source, old(reader.State()), FIRST_CHUNK).1.Some? ==>
      Finds(reader, test, Groups(reader.env, reader.source, chunks), r)
  {
    hide V.BitLength, CollectFrom, FewCalls, Finds, Asked, OfChunk, CanonicalChunkAddress;
    ghost var before := reader.State();
    CollectAsks(reader.env, reader.recovery, reader.source, before, FIRST_CHUNK);
    ListIsBounded(reader.env, reader.recovery, reader.source, before, FIRST_CHUNK);
    ListIsListable(reader.env, reader.recovery, reader.source, before, FIRST_CHUNK);
    if Measured(reader) {
      CollectKnowsLength(reader.env, reader.recovery, reader.source, before, FIRST_CHUNK);
    }
    var collected := CollectDataChunks(reader);
    chunks := [];
    FewAmongChunks(0, chunks);
    if collected.None? {
      return SearchError, 0, [];
    }
    chunks := collected.value;
    ghost var between := reader.log;
    r, calls := SearchListed(reader, test, collected.value);
    AskedInTurn(reader.recovery, old(reader.log), between, reader.log, r == SearchError);
    FewIsLogarithmic(calls, chunks, |reader.source|);
  }

  // ---------------------------------------------------------------- on a written file

  lemma {:induction false} GroupsOfFile(env: Env, cs: seq<ChunkDesc>, f: Bytes, i: nat)
    requires IsFile(env, cs, f) && i <= |cs|
    ensures var groups := Groups(env, f, DataChunks(cs, i));
      && Flat(groups, 0) == RecordsFrom(cs, i)
      && forall t | 0 <= t < |groups| :: groups[t] != []
    decreases |cs| - i
  {
    hide IsFile, PrefixOfFile, WholeFile, FullyVisible, ParseChunkAt, End, Start, IsPossibleChunkBoundary, IsDataChunk;
    var list := DataChunks(cs, i);
    if i < |cs| {
      var rest := DataChunks(cs, i + 1);
      GroupsOfFile(env, cs, f, i + 1);
      if |cs[i].records| > 0 {
        DataOfChunk(env, cs, f, i);
        assert list == [(Start(cs, i), |cs[i].records|)] + rest && list[1..] == rest;
        FlatOfMore(Groups(env, f, rest), OfChunk(env, f, Start(cs, i)), 0);
        assert Groups(env, f, list) == [OfChunk(env, f, Start(cs, i))] + Groups(env, f, rest);
      } else {
        assert list == rest;
      }
    } else {
      assert Groups(env, f, list) == [];
    }
  }

  lemma DataOfChunk(env: Env, cs: seq<ChunkDesc>, f: Bytes, i: nat)
    requires IsFile(env, cs, f) && i < |cs| && |cs[i].records| > 0
    ensures OfChunk(env, f, Start(cs, i)) == cs[i].records
  {
    hide IsFile, PrefixOfFile, WholeFile, FullyVisible, ParseChunkAt, End, Start, IsPossibleChunkBoundary, IsDataChunk;
    FileFacts(env, cs, f);
    ChunkOfFileParses(env, cs, f, i);
    StartsOrdered(cs, i + 1, |cs|);
  }

  lemma {:induction false} FlatOfMore(groups: seq<seq<Bytes>>, first: seq<Bytes>, i: nat)
    requires i <= |groups|
    ensures Flat([first] + groups, i + 1) == Flat(groups, i)
    decreases |groups| - i
  {
    if i < |groups| {
      FlatOfMore(groups, first, i + 1);
      assert ([first] + groups)[i + 1] == groups[i];
    } else {
      assert Flat([first] + groups, i + 1) == [];
    }
  }

  /**
   On a written file the search looks among all its records, whatever the callback, and meets
   nothing to report: so it finds a match exactly when the file holds one.
   */
  lemma SearchSeesTheFile(env: Env, cb: Option<Callback>, cs: seq<ChunkDesc>, f: Bytes, s: Reader)
    requires IsFile(env, cs, f) && s.streamLen == |f|
    ensures var (s', list) := CollectFrom(env, cb, f, s, FIRST_CHUNK);
      && s' == s && list.Some?
      && Flat(Groups(env, f, list.value), 0) == RecordsFrom(cs, 0)
      && forall t | 0 <= t < |list.value| :: Groups(env, f, list.value)[t] != []
  {
    hide IsFile, CollectFrom, OfChunk, Start, RecordsFrom, Flat;
    FileFacts(env, cs, f);
    FirstDataChunk(env, cs, f);
    CollectOfFile(env, cb, cs, f, s, 1);
    GroupsOfFile(env, cs, f, 0);
  }

  lemma FewAmongChunks(calls: nat, chunks: seq<(nat, nat)>)
    requires calls <= V.BitLength(|chunks|)
    ensures FewCalls(calls, chunks)
  {
  }

  lemma FewInsideChunk(calls: nat, within: nat, chunks: seq<(nat, nat)>, k: nat)
    requires k < |chunks| && calls <= V.BitLength(|chunks|) && within <= V.BitLength(chunks[k].1)
    ensures FewCalls(calls + within, chunks)
  {
    assert chunks[k] in chunks;
  }

  /** In a stream of `n` bytes there are at most `n` chunks to list, of at most `n` records each. */
  lemma FewIsLogarithmic(calls: nat, chunks: seq<(nat, nat)>, n: nat)
    requires FewCalls(calls, chunks) && |chunks| <= n && forall c | c in chunks :: c.1 <= n
    ensures calls <= 2 * V.BitLength(n)
  {
    BitLengthMonotone(|chunks|, n);
    if c :| c in chunks && calls <= V.BitLength(|chunks|) + V.BitLength(c.1) {
      BitLengthMonotone(c.1, n);
    }
  }
}
