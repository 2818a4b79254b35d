/**
 The record reader. Its loops and field updates are proved equal to the functions of
 ChunkParsing and ReaderSpec. The stream is a byte sequence that may grow between calls;
 `streamLen` is its length when it was last measured.
 */
module RecordReaders {
  import opened Bytes
  import opened BlockArithmetic
  import opened ChunkParsing
  import opened ReaderSpec
  import BH = BlockHeaders
  import CH = ChunkHeaders
  import SC = SimpleChunk

  // ---------------------------------------------------------------- facts about reading ahead

  /** Reading on from byte `m` to the end of the block, or less. */
  lemma ReadAhead(b: nat, m: nat, n: nat)
    requires 0 < n <= BLOCK_SIZE - SkipBlockHeader(ReadEnd(b, m)) % BLOCK_SIZE
    ensures ReadEnd(b, m + n) == SkipBlockHeader(ReadEnd(b, m)) + n
    ensures forall q | ReadEnd(b, m) < q < ReadEnd(b, m + n) :: !IsBlockBoundary(q)
  {
    ReadStep(b, m, n - 1);
    hide ReadPos;
    var p := ReadEnd(b, m);
    NoBoundaryInside(p, n);
  }

  lemma NoBoundaryInside(p: nat, n: nat)
    requires n <= BLOCK_SIZE - SkipBlockHeader(p) % BLOCK_SIZE
    ensures forall q | p < q < SkipBlockHeader(p) + n :: !IsBlockBoundary(q)
  {
  }

  lemma BytesAhead(f: Bytes, b: nat, m: nat, k: nat, n: nat)
    requires 0 < n <= BLOCK_SIZE - SkipBlockHeader(ReadEnd(b, m + k)) % BLOCK_SIZE
    requires k == 0 || ReadEnd(b, m + k) <= |f|
    requires SkipBlockHeader(ReadEnd(b, m + k)) + n <= |f|
    ensures ReadEnd(b, m + (k + n)) <= |f|
    ensures var p := SkipBlockHeader(ReadEnd(b, m + k));
      ReadBytes(f, b, m, k) + f[p..p + n] == ReadBytes(f, b, m, k + n)
  {
    hide ReadPos, ReadEnd, ReadBytes, SkipBlockHeader;
    var p := SkipBlockHeader(ReadEnd(b, m + k));
    ReadAhead(b, m + k, n);
    assert m + k + n == m + (k + n);
    var s, t, w := ReadBytes(f, b, m, k), f[p..p + n], ReadBytes(f, b, m, k + n);
    forall i | 0 <= i < k + n
      ensures (s + t)[i] == w[i]
    {
      ByteAhead(f, b, m, k + n, i);
      if i >= k {
        ReadPosAhead(b, m, k, i - k);
        assert t[i - k] == f[p + (i - k)];
      } else {
        ByteAhead(f, b, m, k, i);
      }
    }
    assert s + t == w;
  }

  lemma ByteAhead(f: Bytes, b: nat, m: nat, n: nat, i: nat)
    requires i < n && ReadEnd(b, m + n) <= |f|
    ensures ReadPos(b, m + i) < |f| && ReadBytes(f, b, m, n)[i] == f[ReadPos(b, m + i)]
  {
    ReadPosMonotone(b, m + i, m + n - 1);
    hide ReadPos;
  }

  lemma ReadPosAhead(b: nat, m: nat, k: nat, t: nat)
    requires t < BLOCK_SIZE - SkipBlockHeader(ReadEnd(b, m + k)) % BLOCK_SIZE
    ensures ReadPos(b, m + (k + t)) == SkipBlockHeader(ReadEnd(b, m + k)) + t
  {
    ReadStep(b, m + k, t);
    hide ReadPos, ReadEnd, SkipBlockHeader;
    assert m + k + t == m + (k + t);
  }

  /** The only block boundary a chunk header can meet is the first one at or after its beginning. */
  lemma HeaderMeetsOneBoundary(b: nat, m: nat)
    requires m < CHUNK_HEADER_SIZE
    ensures b + m <= ReadEnd(b, m) && ReadEnd(b, m) < ReadEnd(b, CHUNK_HEADER_SIZE) <= b + 64
    ensures IsBlockBoundary(ReadEnd(b, m)) ==>
      ReadEnd(b, m) == NextBlockBoundary(b) && ReadEnd(b, m) + BLOCK_HEADER_SIZE < ReadEnd(b, CHUNK_HEADER_SIZE)
    ensures b <= NextBlockBoundary(b)
    ensures m == 0 ==> !(NextBlockBoundary(b) < ReadEnd(b, m))
  {
    ReadEndMonotone(b, m, CHUNK_HEADER_SIZE);
    ReadEndBound(b, CHUNK_HEADER_SIZE);
    if IsBlockBoundary(ReadEnd(b, m)) {
      ReadStep(b, m, 0);
      ReadEndMonotone(b, m + 1, CHUNK_HEADER_SIZE);
      hide ReadPos;
      assert ReadEnd(b, m + 1) == ReadEnd(b, m) + BLOCK_HEADER_SIZE + 1;
    }
  }

  lemma ReadEndBound(b: nat, n: nat)
    requires n <= CHUNK_HEADER_SIZE
    ensures ReadEnd(b, n) <= b + 64
  {
  }

  datatype LoadStatus = ChunkLoaded | NoMoreChunks | ChunkFailed

  /** The outcome of loading, told by a status, a new state and the failing chunk's trusted end. */
  predicate LoadsAs(load: Load, before: Reader, status: LoadStatus, after: Reader, trustedEnd: Option<nat>) {
    match load
    case Loaded(b, e, records) =>
      status == ChunkLoaded && after == AfterLoad(before, b, e, records).(atEof := before.atEof)
    case LoadEof(at) => status == NoMoreChunks && after == before.(nextChunkFilePos := at)
    case LoadFailed(at, trusted) =>
      status == ChunkFailed && after == before.(nextChunkFilePos := at) && trustedEnd == trusted
  }

  class RecordReader {
    const env: Env
    const recovery: Option<Callback>
    var source: Bytes
    var streamLen: nat
    var currentChunkBegin: nat
    var nextChunkFilePos: nat
    var decoder: Option<Decoder>
    var currentRecordIndex: nat
    var pos: RecordPosition
    var lastPos: RecordPosition
    var atEof: bool
    var lastRecordIsValid: bool
    var log: seq<Region>
    var pendingTrustedEnd: Option<nat>

    function State(): Reader
      reads this
    {
      Reader(streamLen, currentChunkBegin, nextChunkFilePos, decoder, currentRecordIndex, pos,
             lastPos, atEof, lastRecordIsValid, log)
    }

    predicate Valid()
      reads this`streamLen, this`source
    {
      streamLen <= |source|
    }

    /** More bytes arrive. */
    method Grow(more: Bytes)
      requires Valid()
      modifies this`source
      ensures Valid() && source == old(source) + more
    {
      source := source + more;
    }

    /** Up to `n` bytes from `at`. */
    function ReadFull(at: nat, n: nat): (r: Bytes)
      reads this`source
      ensures |r| <= n && (|r| == n <==> at + n <= |source| || n == 0)
      ensures |r| == n && n > 0 ==> r == source[at..at + n]
      ensures n > 0 ==> (r == [] <==> |source| <= at)
    {
      source[Min(at, |source|)..Min(at + n, |source|)]
    }

    // -------------------------------------------------------------- chunk headers and data

    /** What reading the block header at the boundary `q` inside a chunk header gives. */
    method CheckBlockHeader(q: nat, chunkBegin: nat) returns (bh: Option<BH.BlockHeader>)
      ensures bh.Some? <==> PointsBack(env.h, source, q, chunkBegin)
      ensures bh.Some? ==> q + BLOCK_HEADER_SIZE <= |source| && bh.value == BlockHeaderAt(source, q)
    {
      var bytes := ReadFull(q, BLOCK_HEADER_SIZE);
      if |bytes| < BLOCK_HEADER_SIZE {
        return None;
      }
      var header := BH.FromBytes(bytes);
      if !header.IsValid(env.h) || header.previousChunk + chunkBegin != q {
        return None;
      }
      return Some(header);
    }

    method ReadChunkHeaderAt(at: nat) returns (r: HeaderRead)
      requires Valid()
      modifies this`streamLen
      ensures Valid() && streamLen == LengthAfterHeader(env.h, source, old(streamLen), at)
      ensures r == ReadHeaderAt(env.h, source, at)
    {
      hide ReadEnd, ReadBytes, NextBlockBoundary, CanonicalChunkAddress, ChunkEnd, PointsBack, BlockHeaderAt;
      var chunkBegin := CanonicalChunkAddress(at);
      HeaderMeetsOneBoundary(chunkBegin, 0);
      var bytes, interior := CollectHeaderBytes(chunkBegin);
      if bytes.None? {
        return if |source| <= chunkBegin then HeaderEof else HeaderError;
      }
      var ch := CH.FromBytes(bytes.value);
      var dataBegin := ReadEnd(chunkBegin, CHUNK_HEADER_SIZE);
      if ch.IsHeaderValid(env.h) {
        if dataBegin + ch.dataSize > Max(streamLen, dataBegin)
           || chunkBegin + ch.NumRecords() > Max(streamLen, chunkBegin) {
          // Re-measure before rejecting: the stream may have grown.
          streamLen := |source|;
          if dataBegin + ch.dataSize > |source| || chunkBegin + ch.NumRecords() > |source| {
            return HeaderError;
          }
        }
        if interior.Some? {
          var (q, bh) := interior.value;
          var chunkEnd := ComputeChunkEnd(chunkBegin, ch.dataSize, ch.NumRecords());
          if q + bh.nextChunk != chunkEnd {
            return HeaderError;
          }
        }
      }
      return HeaderOk(ch, chunkBegin, dataBegin);
    }

    /** The forty header bytes and the block header that interrupts them, if any; `None` on any failure. */
    method CollectHeaderBytes(chunkBegin: nat) returns (r: Option<Bytes>, interior: Option<(nat, BH.BlockHeader)>)
      ensures var q, dataBegin := NextBlockBoundary(chunkBegin), ReadEnd(chunkBegin, CHUNK_HEADER_SIZE);
        && (r.Some? <==> |source| >= dataBegin && (q < dataBegin ==> PointsBack(env.h, source, q, chunkBegin)))
        && (r.Some? ==> r.value == ReadBytes(source, chunkBegin, 0, CHUNK_HEADER_SIZE))
        && (r.Some? ==> interior == if chunkBegin < q < dataBegin then Some((q, BlockHeaderAt(source, q))) else None)
    {
      hide ReadPos, ReadEnd, ReadBytes, NextBlockBoundary, PointsBack, BlockHeaderAt, ReadFull, IsBlockBoundary;
      var filePos := chunkBegin;
      var bytes: Bytes := [];
      interior := None;
      ghost var q, dataBegin := NextBlockBoundary(chunkBegin), ReadEnd(chunkBegin, CHUNK_HEADER_SIZE);
      HeaderMeetsOneBoundary(chunkBegin, 0);
      ReadEndAtStart(chunkBegin);
      while |bytes| < CHUNK_HEADER_SIZE
        invariant |bytes| <= CHUNK_HEADER_SIZE && filePos == ReadEnd(chunkBegin, |bytes|)
        invariant bytes != [] ==> filePos <= |source|
        invariant bytes == ReadBytes(source, chunkBegin, 0, |bytes|)
        invariant q < filePos ==> q + BLOCK_HEADER_SIZE <= |source| && PointsBack(env.h, source, q, chunkBegin)
        invariant interior == if chunkBegin < q < filePos then Some((q, BlockHeaderAt(source, q))) else None
      {
        HeaderMeetsOneBoundary(chunkBegin, |bytes|);
        var next := SkipBlockHeader(filePos);
        if IsBlockBoundary(filePos) {
          var bh := CheckBlockHeader(filePos, chunkBegin);
          if bh.None? {
            return None, None;
          }
          if bytes != [] {
            interior := Some((filePos, bh.value));
          }
        }
        var toRead := Min(CHUNK_HEADER_SIZE - |bytes|, BLOCK_SIZE - next % BLOCK_SIZE);
        ReadAhead(chunkBegin, |bytes|, toRead);
        ReadEndMonotone(chunkBegin, |bytes| + toRead, CHUNK_HEADER_SIZE);
        var more := ReadFull(next, toRead);
        if |more| < toRead {
          return None, None;
        }
        BytesAhead(source, chunkBegin, 0, |bytes|, toRead);
        BoundaryPassed(q, filePos, next + toRead, chunkBegin);
        bytes := bytes + more;
        filePos := next + toRead;
      }
      return Some(bytes), interior;
    }

    lemma ReadEndAtStart(b: nat)
      ensures ReadEnd(b, 0) == b
    {
    }

    lemma BoundaryPassed(q: nat, before: nat, after: nat, b: nat)
      requires q == NextBlockBoundary(b)
      requires forall p | before < p < after :: !IsBlockBoundary(p)
      ensures IsBlockBoundary(q) && (q < after ==> q <= before)
    {
      assert IsBlockBoundary(q);
    }

    /** One turn of the data loop: the block header that may stand next, then bytes up to the end of its block. */
    method ReadDataPiece(chunkBegin: nat, chunkEnd: nat, filePos: nat, ghost m: nat, remaining: nat)
      returns (r: Option<Bytes>)
      requires remaining > 0 && filePos == ReadEnd(chunkBegin, m)
      ensures r.Some? ==> 0 < |r.value| <= remaining
      ensures r.Some? ==> ReadEnd(chunkBegin, m + |r.value|) == SkipBlockHeader(filePos) + |r.value| <= |source|
      ensures r.Some? ==> |r.value| <= BLOCK_SIZE - SkipBlockHeader(filePos) % BLOCK_SIZE
      ensures r.Some? ==> r.value == source[SkipBlockHeader(filePos)..SkipBlockHeader(filePos) + |r.value|]
      ensures r.Some? ==> forall q | filePos <= q < ReadEnd(chunkBegin, m + |r.value|) && IsBlockBoundary(q) ::
        Agrees(env.h, source, q, chunkBegin, chunkEnd)
      ensures r.None? ==>
        || |source| < ReadEnd(chunkBegin, m + remaining)
        || (IsBlockBoundary(filePos) && !Agrees(env.h, source, filePos, chunkBegin, chunkEnd))
    {
      hide ReadPos, ReadEnd, IsBlockBoundary, BlockHeaderAt, ValidBlockHeaderAt;
      var next := SkipBlockHeader(filePos);
      if IsBlockBoundary(filePos) {
        var bh := CheckBlockHeader(filePos, chunkBegin);
        if bh.None? || filePos + bh.value.nextChunk != chunkEnd {
          return None;
        }
      }
      var toRead := Min(remaining, BLOCK_SIZE - next % BLOCK_SIZE);
      ReadAhead(chunkBegin, m, toRead);
      ReadEndMonotone(chunkBegin, m + toRead, m + remaining);
      var more := ReadFull(next, toRead);
      if |more| < toRead {
        return None;
      }
      return Some(more);
    }

    /** The chunk's data, every interleaved block header checked against both ends of the chunk. */
    method ReadChunkData(chunkBegin: nat, chunkEnd: nat, dataBegin: nat, dataSize: nat) returns (r: Option<Bytes>)
      requires dataBegin == ReadEnd(chunkBegin, CHUNK_HEADER_SIZE) <= |source|
      ensures r == ReadDataAt(env.h, source, chunkBegin, chunkEnd, dataSize)
    {
      hide ReadPos, ReadEnd, IsBlockBoundary, Agrees, SkipBlockHeader;
      var result: Bytes := [];
      var remaining: nat := dataSize;
      var filePos := dataBegin;
      while remaining > 0
        invariant |result| + remaining == dataSize
        invariant filePos == ReadEnd(chunkBegin, CHUNK_HEADER_SIZE + |result|) <= |source|
        invariant result == ReadBytes(source, chunkBegin, CHUNK_HEADER_SIZE, |result|)
        invariant forall q | dataBegin <= q < filePos && IsBlockBoundary(q) ::
          Agrees(env.h, source, q, chunkBegin, chunkEnd)
      {
        ghost var m := CHUNK_HEADER_SIZE + |result|;
        ReadEndMonotone(chunkBegin, m, CHUNK_HEADER_SIZE + dataSize);
        ReadEndMonotone(chunkBegin, CHUNK_HEADER_SIZE, m);
        var more := ReadDataPiece(chunkBegin, chunkEnd, filePos, m, remaining);
        if more.None? {
          return None;
        }
        BytesAhead(source, chunkBegin, CHUNK_HEADER_SIZE, |result|, |more.value|);
        filePos := SkipBlockHeader(filePos) + |more.value|;
        result := result + more.value;
        remaining := remaining - |more.value|;
      }
      return Some(result);
    }

    // -------------------------------------------------------------- one chunk

    /** Decodes a chunk's data into its records. */
    method MakeDecoder(ch: CH.ChunkHeader, t: CH.ChunkType, data: Bytes) returns (r: Option<seq<Bytes>>)
      ensures r == DecodeRecords(env, ch, t, data)
    {
      if t == CH.Simple {
        var d := SC.NewDecoder(env.codec, data, ch.NumRecords(), ch.decodedDataSize);
        if d.None? {
          return None;
        }
        var records := d.value.Records();
        return if |records| == ch.NumRecords() then Some(records) else None;
      }
      var records := env.transposed(ch, data);
      return if records.Some? && |records.value| == ch.NumRecords() then records else None;
    }

    /**
     The steps the sequential reader and the seeking one share: header, data, data hash, type,
     decoder. From the moment the data have been read the extent is trusted.
     */
    method ReadChunkAt(at: nat) returns (r: ChunkParse)
      requires Valid()
      modifies this`streamLen, this`pendingTrustedEnd
      ensures Valid() && streamLen == LengthAfterHeader(env.h, source, old(streamLen), at)
      ensures r == ParseChunkAt(env, source, at)
      ensures r.ParseUntrusted? || r.ParseEof? ==> pendingTrustedEnd == None
      ensures r.ParseTrusted? ==> pendingTrustedEnd == Some(r.e)
    {
      hide ReadHeaderAt, ReadDataAt, ReadEnd, ChunkEnd, DecodeRecords, LengthAfterHeader;
      pendingTrustedEnd := None;
      var header := ReadChunkHeaderAt(at);
      if header.HeaderEof? {
        return ParseEof;
      }
      if header.HeaderError? || !header.ch.IsHeaderValid(env.h) {
        return ParseUntrusted;
      }
      var ch, b := header.ch, header.chunkBegin;
      var e := ComputeChunkEnd(b, ch.dataSize, ch.NumRecords());
      HeaderDataBegin(env.h, source, at);
      var data := ReadChunkData(b, e, header.dataBegin, ch.dataSize);
      if data.None? {
        return ParseUntrusted;
      }
      pendingTrustedEnd := Some(e);
      if !ch.IsDataValid(env.h, data.value) {
        return ParseTrusted(b, e, false);
      }
      match ch.Type()
      case None =>
        return if ch.NumRecords() == 0 then ParseSkip(b, e) else ParseTrusted(b, e, true);
      case Some(t) =>
        if t == CH.Simple || t == CH.Transposed {
          var records := MakeDecoder(ch, t, data.value);
          return if records.Some? then ParseData(b, e, records.value) else ParseTrusted(b, e, true);
        }
        return if CH.ValidSpecialChunk(ch, t) then ParseSkip(b, e) else ParseTrusted(b, e, true);
    }

    lemma HeaderDataBegin(h: Hash, f: Bytes, at: nat)
      ensures var r := ReadHeaderAt(h, f, at);
        r.HeaderOk? ==> r.dataBegin == ReadEnd(r.chunkBegin, CHUNK_HEADER_SIZE) <= |f|
    {
    }

    /**
     Advances over chunks without records to the next data chunk, leaving the cursor at the failing chunk on
     error.
     */
    method LoadNextChunk() returns (r: LoadStatus)
      requires Valid()
      modifies this`streamLen, this`pendingTrustedEnd, this`nextChunkFilePos, this`currentChunkBegin,
        this`currentRecordIndex, this`pos, this`decoder
      ensures Valid()
      ensures var before :=
        old(State()).(streamLen := LengthAfterLoad(env, source, old(streamLen), old(nextChunkFilePos)));
        LoadsAs(LoadFrom(env, source, old(nextChunkFilePos)), before, r, State(), pendingTrustedEnd)
    {
      hide ParseChunkAt, LoadFrom, Gap, LengthAfterHeader, LengthAfterLoad;
      while true
        invariant Valid()
        invariant LoadFrom(env, source, nextChunkFilePos) == LoadFrom(env, source, old(nextChunkFilePos))
        invariant LengthAfterLoad(env, source, streamLen, nextChunkFilePos)
          == LengthAfterLoad(env, source, old(streamLen), old(nextChunkFilePos))
        invariant State() == old(State()).(streamLen := streamLen, nextChunkFilePos := nextChunkFilePos)
        decreases Gap(source, nextChunkFilePos)
      {
        LoadStep(env, source, nextChunkFilePos);
        LengthStep(env, source, streamLen, nextChunkFilePos);
        var parse := ReadChunkAt(nextChunkFilePos);
        if parse.ParseEof? {
          return NoMoreChunks;
        } else if parse.ParseUntrusted? {
          return ChunkFailed;
        } else if parse.ParseTrusted? {
          nextChunkFilePos := parse.b;
          return ChunkFailed;
        }
        nextChunkFilePos := parse.e;
        if parse.ParseData? {
          currentChunkBegin := parse.b;
          currentRecordIndex := 0;
          pos := RecordPosition(parse.b, 0);
          decoder := Some(Decoder(parse.records, 0));
          return ChunkLoaded;
        }
      }
    }

    lemma LengthStep(env: Env, f: Bytes, len: nat, at: nat)
      ensures var p, measured := ParseChunkAt(env, f, at), LengthAfterHeader(env.h, f, len, at);
        LengthAfterLoad(env, f, len, at) == if p.ParseSkip? then LengthAfterLoad(env, f, measured, p.e) else measured
    {
      hide LengthAfterHeader, ParseChunkAt;
    }

    lemma LoadStep(env: Env, f: Bytes, at: nat)
      ensures var p, load := ParseChunkAt(env, f, at), LoadFrom(env, f, at);
        && (p.ParseEof? ==> load == LoadEof(at))
        && (p.ParseUntrusted? ==> load == LoadFailed(at, None))
        && (p.ParseTrusted? ==> load == LoadFailed(p.b, Some(p.e)))
        && (p.ParseSkip? ==> load == LoadFrom(env, f, p.e))
        && (p.ParseData? ==> load == Loaded(p.b, p.e, p.records))
      ensures ParseChunkAt(env, f, at).ParseSkip? ==> Gap(f, ParseChunkAt(env, f, at).e) < Gap(f, at)
    {
      ParseExtent(env, f, at);
      CanonicalFacts(at);
    }

    // -------------------------------------------------------------- recovery

    /** Follows block headers from `start`. */
    method ResolveBoundaryResync(start: nat) returns (r: nat)
      requires Valid() && IsBlockBoundary(start)
      ensures r == Resync(env.h, source, streamLen, start)
    {
      hide ValidBlockHeaderAt, IsPossibleChunkBoundary;
      var boundary := start;
      while true
        invariant start <= boundary && IsBlockBoundary(boundary)
        invariant Resync(env.h, source, streamLen, boundary) == Resync(env.h, source, streamLen, start)
        decreases if boundary <= |source| then |source| - boundary else 0
      {
        BoundaryStep(boundary);
        if boundary + BLOCK_HEADER_SIZE > |source| {
          return boundary;
        }
        if !ValidBlockHeaderAt(env.h, source, boundary) {
          boundary := boundary + BLOCK_SIZE;
          continue;
        }
        var bh := BlockHeaderAt(source, boundary);
        if bh.previousChunk == 0 {
          return boundary;
        }
        var target := boundary + bh.nextChunk;
        if target > streamLen {
          return target;
        }
        if IsPossibleChunkBoundary(target) {
          return target;
        }
        ImplausiblePointer(boundary, target);
        boundary := NextBlockBoundary(target);
      }
    }

    /** Computes the region for a failure at `at`, records it and asks the callback; `None` without a callback. */
    method ReportRegionAt(at: nat) returns (r: Option<bool>)
      requires Valid()
      modifies this`log, this`pendingTrustedEnd
      ensures pendingTrustedEnd == None
      ensures recovery.None? ==> r == None && log == old(log)
      ensures recovery.Some? ==> r.Some? && |log| == |old(log)| + 1 && log[..|old(log)|] == old(log)
      ensures recovery.Some? ==>
        var region := log[|old(log)|];
        && region == RegionFor(env.h, source, streamLen, at, old(pendingTrustedEnd), PreviousEnd(old(log)))
        && r.value == recovery.value(|old(log)|, region)
    {
      hide Resync, IsBlockBoundary, CanonicalChunkAddress;
      var trustedEnd := pendingTrustedEnd;
      pendingTrustedEnd := None;
      if recovery.None? {
        return None;
      }
      var begin := RegionBegin(at, PreviousEnd(log));
      var end := at;
      match trustedEnd {
        case Some(e) => end := e;
        case None =>
          var resync := ResolveBoundaryResync(BoundaryAfter(begin));
          end := Min(resync, Max(streamLen, begin));
      }
      end := Max(Max(end, begin + 1), at + 1);
      if CanonicalChunkAddress(end) <= begin {
        end := end + 1;
      }
      var region := Region(begin, end);
      var verdict := recovery.value(|log|, region);
      log := log + [region];
      return Some(verdict);
    }

    /** Consumes the region whatever the verdict, so that the next read continues past it. */
    method TryRecoverAt(at: nat) returns (go: bool)
      requires Valid()
      modifies this`log, this`pendingTrustedEnd, this`lastRecordIsValid, this`decoder, this`atEof, this`nextChunkFilePos
      ensures pendingTrustedEnd == None
      ensures (State(), go) == TryRecover(env.h, recovery, source, old(State()), at, old(pendingTrustedEnd))
    {
      hide RegionFor;
      var verdict := ReportRegionAt(at);
      if verdict.None? {
        return false;
      }
      lastRecordIsValid := false;
      decoder := None;
      atEof := false;
      nextChunkFilePos := log[|log| - 1].end;
      assert log == old(log) + [log[|old(log)|]];
      return verdict.value;
    }

    // -------------------------------------------------------------- reading

    /** Opens the stream; `false` when it cannot be read as a file of this format. */
    constructor (env: Env, recovery: Option<Callback>, source: Bytes)
      ensures this.env == env && this.recovery == recovery && this.source == source
      ensures Valid() && streamLen == |source|
      ensures State() == Initial(source)
    {
      this.env, this.recovery, this.source := env, recovery, source;
      streamLen := |source|;
      currentChunkBegin, nextChunkFilePos := BLOCK_HEADER_SIZE, FIRST_CHUNK;
      decoder, currentRecordIndex := None, 0;
      pos, lastPos := RecordPosition(0, 0), RecordPosition(0, 0);
      atEof, lastRecordIsValid := source == [], true;
      log, pendingTrustedEnd := [], None;
    }

    /** The rest of opening: the preamble is checked, and a damaged one is a region like any other. */
    method CheckPreamble() returns (ok: bool)
      requires Valid() && State() == Initial(source) && pendingTrustedEnd == None
      modifies this
      ensures Valid() && streamLen == old(streamLen) && source == old(source)
      ensures ok <==> Open(env.h, recovery, source).Some?
      ensures ok ==> State() == Open(env.h, recovery, source).value
    {
      hide RegionFor;
      if streamLen == 0 {
        return true;
      }
      var blockHeader := ReadFull(0, BLOCK_HEADER_SIZE);
      var chunkHeader := ReadFull(BLOCK_HEADER_SIZE, CHUNK_HEADER_SIZE);
      if |blockHeader| == BLOCK_HEADER_SIZE && BH.FromBytes(blockHeader).IsValid(env.h)
        && |chunkHeader| == CHUNK_HEADER_SIZE && chunkHeader == SignatureHeaderBytes(env.h) {
        return true;
      }
      ok := TryRecoverAt(0);
    }

    /** Yields the decoder's next record. */
    method TakeRecord() returns (record: Bytes)
      requires decoder.Some? && decoder.value.HasNext()
      modifies this`lastPos, this`currentRecordIndex, this`pos, this`lastRecordIsValid, this`decoder
      ensures State() == AfterRecord(old(State()))
      ensures record == old(decoder.value.records[decoder.value.next])
    {
      var d := decoder.value;
      lastPos := RecordPosition(currentChunkBegin, currentRecordIndex);
      currentRecordIndex := currentRecordIndex + 1;
      pos := RecordPosition(currentChunkBegin, currentRecordIndex);
      lastRecordIsValid := true;
      decoder := Some(d.(next := d.next + 1));
      return d.records[d.next];
    }

    /** One turn of the reading loop with no record at hand: load, and recover if that fails. `None` to go on. */
    method LoadOrRecover() returns (r: Option<ReadResult>)
      requires Valid() && (decoder.Some? ==> !decoder.value.HasNext())
      modifies this
      ensures Valid() && source == old(source)
      ensures r.None? ==> Gap(source, nextChunkFilePos) < Gap(source, old(nextChunkFilePos))
      ensures r.Some? ==>
        ReaderSpec.ReadRecord(env, recovery, source, old(State())) == (State(), r.value)
      ensures r.None? ==>
        ReaderSpec.ReadRecord(env, recovery, source, old(State()))
          == ReaderSpec.ReadRecord(env, recovery, source, State())
    {
      hide LoadFrom, RegionFor, Gap, TryRecover, LengthAfterLoad;
      ghost var before := State();
      decoder := None;
      ghost var load := LoadFrom(env, source, nextChunkFilePos);
      LoadFacts(env, source, nextChunkFilePos);
      var status := LoadNextChunk();
      match status {
        case ChunkLoaded =>
          atEof := false;
          return None;
        case NoMoreChunks =>
          atEof := true;
          return Some(EndOfFile);
        case ChunkFailed =>
          LoadFailureIsNear(env, source, before.nextChunkFilePos);
          var go := TryRecoverAt(nextChunkFilePos);
          return if go then None else Some(ReadError);
      }
    }

    lemma LoadFacts(env: Env, f: Bytes, at: nat)
      ensures LoadFrom(env, f, at).Loaded? ==> Gap(f, LoadFrom(env, f, at).end) < Gap(f, at)
    {
    }

    /** The next record; whatever the bytes, the call ends. */
    method ReadRecord() returns (r: ReadResult)
      requires Valid()
      modifies this
      ensures Valid() && source == old(source)
      ensures (State(), r) == ReaderSpec.ReadRecord(env, recovery, source, old(State()))
    {
      pendingTrustedEnd := None;
      while true
        invariant Valid() && source == old(source)
        invariant ReaderSpec.ReadRecord(env, recovery, source, State())
          == ReaderSpec.ReadRecord(env, recovery, source, old(State()))
        decreases Gap(source, nextChunkFilePos)
      {
        if decoder.Some? && decoder.value.HasNext() {
          var record := TakeRecord();
          return GotRecord(record);
        }
        hide ReaderSpec.ReadRecord, Gap;
        var result := LoadOrRecover();
        if result.Some? {
          return result.value;
        }
      }
    }

    /** A failing load lets recovery make progress. */
    lemma LoadFailureIsNear(env: Env, f: Bytes, at: nat)
      ensures var r := LoadFrom(env, f, at);
        forall end | r.LoadFailed? && r.at < end && (r.trustedEnd.Some? ==> r.trustedEnd.value <= end) ::
          Gap(f, end) < Gap(f, at)
    {
      CanonicalFacts(at);
    }

    // -------------------------------------------------------------- seeking

    /** As `LoadNextChunk` but for a seek: the chunk last recognised is remembered even when it holds no records. */
    method LoadChunkAt(start: nat) returns (r: LoadStatus, records: seq<Bytes>)
      requires Valid() && start == nextChunkFilePos && CanonicalChunkAddress(start) == start && currentRecordIndex == 0
      modifies this`streamLen, this`pendingTrustedEnd, this`nextChunkFilePos, this`currentChunkBegin,
        this`currentRecordIndex
      ensures Valid() && streamLen == LengthAfterLoad(env, source, old(streamLen), start)
      ensures currentRecordIndex == 0 && currentChunkBegin == Touched(env, source, start, old(currentChunkBegin))
      ensures var load := LoadFrom(env, source, start);
        && (load.Loaded? <==> r == ChunkLoaded) && (load.LoadEof? <==> r == NoMoreChunks)
        && (load.Loaded? ==> records == load.records && nextChunkFilePos == load.end && currentChunkBegin == load.begin)
        && (load.LoadEof? ==> nextChunkFilePos == load.at)
        && (load.LoadFailed? ==> nextChunkFilePos == load.at && pendingTrustedEnd == load.trustedEnd)
    {
      hide ParseChunkAt, LoadFrom, Touched, Gap, CanonicalChunkAddress, LengthAfterLoad, LengthAfterHeader;
      records := [];
      var filePos := start;
      while true
        invariant Valid()
        invariant LengthAfterLoad(env, source, streamLen, filePos)
          == LengthAfterLoad(env, source, old(streamLen), start)
        invariant filePos == nextChunkFilePos && CanonicalChunkAddress(filePos) == filePos && currentRecordIndex == 0
        invariant LoadFrom(env, source, filePos) == LoadFrom(env, source, start)
        invariant Touched(env, source, filePos, currentChunkBegin)
          == Touched(env, source, start, old(currentChunkBegin))
        decreases Gap(source, filePos)
      {
        LoadStep(env, source, filePos);
        TouchedStep(env, source, filePos, currentChunkBegin);
        LengthStep(env, source, streamLen, filePos);
        var parse := ReadChunkAt(filePos);
        if parse.ParseEof? {
          return NoMoreChunks, [];
        } else if parse.ParseUntrusted? || (parse.ParseTrusted? && !parse.dataHashOk) {
          return ChunkFailed, [];
        }
        currentChunkBegin := parse.b;
        currentRecordIndex := 0;
        if parse.ParseTrusted? {
          nextChunkFilePos := parse.b;
          return ChunkFailed, [];
        }
        nextChunkFilePos := parse.e;
        if parse.ParseData? {
          return ChunkLoaded, parse.records;
        }
        filePos := parse.e;
      }
    }

    lemma TouchedStep(env: Env, f: Bytes, at: nat, current: nat)
      requires CanonicalChunkAddress(at) == at
      ensures var p, touched := ParseChunkAt(env, f, at), Touched(env, f, at, current);
        && (p.ParseEof? || p.ParseUntrusted? ==> touched == current)
        && (p.ParseTrusted? ==> p.b == at && touched == if p.dataHashOk then p.b else current)
        && (p.ParseSkip? ==> touched == Touched(env, f, p.e, p.b) && CanonicalChunkAddress(p.e) == p.e)
        && (p.ParseData? ==> touched == p.b)
    {
      ParseExtent(env, f, at);
      hide ParseChunkAt;
      if ParseChunkAt(env, f, at).ParseSkip? {
        CanonicalFacts(ParseChunkAt(env, f, at).e);
      }
    }

    /** Positions the reader at a record; an index past the chunk's end is clamped to it. */
    method SeekTo(p: RecordPosition) returns (ok: bool)
      requires Valid()
      modifies this
      ensures Valid() && source == old(source)
      ensures (State(), ok) == ReaderSpec.Seek(env, recovery, source, old(State()), p)
    {
      hide LoadFrom, Touched, CanonicalChunkAddress, TryRecover, LengthAfterLoad;
      var chunkFilePos := CanonicalChunkAddress(p.chunkBegin);
      CanonicalFacts(p.chunkBegin);
      pendingTrustedEnd := None;
      decoder := None;
      atEof := false;
      nextChunkFilePos := chunkFilePos;
      currentChunkBegin := chunkFilePos;
      currentRecordIndex := 0;
      var status, records := LoadChunkAt(chunkFilePos);
      if status == NoMoreChunks {
        atEof := true;
        pos := RecordPosition(chunkFilePos, p.recordIndex);
        return true;
      }
      if status == ChunkFailed {
        ok := RecoverSeek();
        return;
      }
      SkipRecords(records, if currentChunkBegin == chunkFilePos then p.recordIndex else 0);
      pos := RecordPosition(chunkFilePos, currentRecordIndex);
      return true;
    }

    /** After a failed load: on recovery the reader stands at the region's end. */
    method RecoverSeek() returns (ok: bool)
      requires Valid()
      modifies this
      ensures Valid() && source == old(source)
      ensures var (s1, go) :=
        TryRecover(env.h, recovery, source, old(State()), old(nextChunkFilePos), old(pendingTrustedEnd));
        (State(), ok) == if go then (s1.(pos := RecordPosition(s1.nextChunkFilePos, 0)), true) else (s1, false)
    {
      hide TryRecover;
      ok := TryRecoverAt(nextChunkFilePos);
      if ok {
        pos := RecordPosition(nextChunkFilePos, 0);
      }
    }

    /** Skips `count` records of a freshly loaded chunk, or all of them. */
    method SkipRecords(records: seq<Bytes>, count: nat)
      requires currentRecordIndex == 0
      modifies this`currentRecordIndex, this`decoder
      ensures currentRecordIndex == Min(count, |records|) && decoder == Some(Decoder(records, currentRecordIndex))
    {
      while currentRecordIndex < count && currentRecordIndex < |records|
        invariant currentRecordIndex <= Min(count, |records|)
        modifies this`currentRecordIndex
      {
        currentRecordIndex := currentRecordIndex + 1;
      }
      decoder := Some(Decoder(records, currentRecordIndex));
    }

    /** Where a scan for `target` can start, from the block header at or below it. */
    method ResolveScanOrigin(target: nat) returns (r: nat)
      requires Valid()
      modifies this`streamLen
      ensures Valid() && streamLen == LengthAfterOrigin(source, old(streamLen), target)
      ensures r == ScanOrigin(env.h, source, target)
    {
      hide IsPossibleChunkBoundary;
      if target > streamLen {
        streamLen := |source|;
      }
      var blockBegin := RoundDownToBlockBoundary(Min(target, streamLen));
      assert Min(target, streamLen) == Min(target, |source|);
      if blockBegin == 0 || !ValidBlockHeaderAt(env.h, source, blockBegin) {
        return FIRST_CHUNK;
      }
      var bh := BlockHeaderAt(source, blockBegin);
      var chunkBegin := blockBegin;
      if bh.previousChunk != 0 {
        var next := blockBegin + bh.nextChunk;
        if next > target {
          if bh.previousChunk > blockBegin {
            return FIRST_CHUNK;
          }
          chunkBegin := blockBegin - bh.previousChunk;
        } else {
          chunkBegin := next;
        }
      }
      if chunkBegin < FIRST_CHUNK || !IsPossibleChunkBoundary(chunkBegin) {
        return FIRST_CHUNK;
      }
      return chunkBegin;
    }

    /** One turn of the walk of `SeekToNumeric`. `None` to go on from `next`. */
    method ScanTurn(scanPos: nat, numeric: nat) returns (done: Option<bool>, next: nat)
      requires Valid() && pendingTrustedEnd == None
      modifies this
      ensures Valid() && source == old(source)
      ensures done.Some? ==> SeekScan(env, recovery, source, old(State()), scanPos, numeric) == (State(), done.value)
      ensures done.None? ==> pendingTrustedEnd == None && Gap(source, next) < Gap(source, scanPos)
      ensures done.None? ==>
        SeekScan(env, recovery, source, old(State()), scanPos, numeric)
        == SeekScan(env, recovery, source, State(), next, numeric)
    {
      SeekScanStep(env, recovery, source, State(), scanPos, numeric);
      hide ReadHeaderAt, ReaderSpec.Seek, EndOf, Gap, TryRecover, SeekScan, Readable, LengthAfterHeader;
      next := scanPos;
      var r := ReadChunkHeaderAt(scanPos);
      if r.HeaderEof? {
        atEof := true;
        pos := RecordPosition(scanPos, 0);
        decoder := None;
        currentChunkBegin := scanPos;
        currentRecordIndex := 0;
        nextChunkFilePos := scanPos;
        return Some(true), next;
      }
      if !Readable(env.h, r) {
        var go := TryRecoverAt(scanPos);
        return if go then None else Some(false), nextChunkFilePos;
      }
      var numRecords := r.ch.NumRecords();
      if scanPos < numeric && scanPos + numRecords <= numeric {
        return None, EndOf(scanPos, r.ch);
      }
      var ok := SeekTo(RecordPosition(scanPos, if scanPos >= numeric then 0 else numeric - scanPos));
      return Some(ok), next;
    }

    /** Positions the reader at the record whose numeric position is `numeric`, or after it if there is none. */
    method SeekToNumeric(numeric: nat) returns (ok: bool)
      requires Valid()
      modifies this
      ensures Valid() && source == old(source)
      ensures (State(), ok) == ReaderSpec.SeekNumeric(env, recovery, source, old(State()), numeric)
    {
      hide ScanOrigin, Gap, SeekScan, LengthAfterOrigin;
      pendingTrustedEnd := None;
      var scanPos: nat := ResolveScanOrigin(numeric);
      while true
        invariant Valid() && source == old(source) && pendingTrustedEnd == None
        invariant SeekScan(env, recovery, source, State(), scanPos, numeric)
          == ReaderSpec.SeekNumeric(env, recovery, source, old(State()), numeric)
        decreases Gap(source, scanPos)
      {
        var done, next := ScanTurn(scanPos, numeric);
        if done.Some? {
          return done.value;
        }
        scanPos := next;
      }
    }

    /** The chunk whose extent contains `target`; a scan error is passed on, recovery or not. */
    method LocateChunkBefore(target: nat) returns (r: Find)
      requires Valid()
      modifies this`streamLen
      ensures Valid() && streamLen == HavingLooked(env.h, source, old(State()), target).streamLen
      ensures r == FindChunkBefore(env.h, source, target)
    {
      hide ReadHeaderAt, ScanOrigin, EndOf, LengthAfterOrigin, LengthAfterHeader;
      var scanPos: nat := ResolveScanOrigin(target);
      while true
        invariant Valid()
        invariant LengthAfterFind(env.h, source, streamLen, scanPos, target)
          == HavingLooked(env.h, source, old(State()), target).streamLen
        invariant FindScan(env.h, source, scanPos, target) == FindChunkBefore(env.h, source, target)
        decreases Gap(source, scanPos)
      {
        HeaderEndAdvances(env.h, source, scanPos);
        var header := ReadChunkHeaderAt(scanPos);
        if header.HeaderEof? {
          return FindNothing;
        }
        if !Readable(env.h, header) {
          return FindError;
        }
        var end := EndOf(scanPos, header.ch);
        if end > target {
          return Found(scanPos, header.ch);
        }
        scanPos := end;
      }
    }

    /** Steps one record back, across chunks and past those without records. */
    method StepBack() returns (r: SeekBackResult)
      requires Valid()
      modifies this
      ensures Valid() && source == old(source)
      ensures (State(), r) == ReaderSpec.SeekBack(env, recovery, source, old(State()))
    {
      hide ReaderSpec.Seek, FindChunkBefore, SeekBackFrom, LengthAfterFind, LengthAfterOrigin, ScanOrigin;
      pendingTrustedEnd := None;
      if currentRecordIndex > 0 {
        var ok := SeekTo(RecordPosition(currentChunkBegin, currentRecordIndex - 1));
        return if ok then SteppedBack else SeekBackError;
      }
      var chunkPos: nat := currentChunkBegin;
      while chunkPos > FIRST_CHUNK
        invariant Valid() && source == old(source)
        invariant State() == old(State()).(streamLen := streamLen)
        invariant SeekBackFrom(env, recovery, source, State(), chunkPos)
          == ReaderSpec.SeekBack(env, recovery, source, old(State()))
      {
        SeekBackStep(env, recovery, source, State(), chunkPos);
        var found := LocateChunkBefore(chunkPos - 1);
        if found.FindError? {
          return SeekBackError;
        }
        if found.FindNothing? {
          return NoPrevious;
        }
        if found.ch.NumRecords() > 0 {
          var ok := SeekTo(RecordPosition(found.begin, found.ch.NumRecords() - 1));
          return if ok then SteppedBack else SeekBackError;
        }
        if found.begin >= chunkPos {
          return NoPrevious;
        }
        chunkPos := found.begin;
      }
      SeekBackStep(env, recovery, source, State(), chunkPos);
      return NoPrevious;
    }
  }

  lemma SeekBackStep(env: Env, cb: Option<Callback>, f: Bytes, s: Reader, chunkPos: nat)
    ensures chunkPos <= FIRST_CHUNK ==> SeekBackFrom(env, cb, f, s, chunkPos) == (s, NoPrevious)
    ensures chunkPos > FIRST_CHUNK ==>
      var r, s0 := FindChunkBefore(env.h, f, chunkPos - 1), HavingLooked(env.h, f, s, chunkPos - 1);
      var back := SeekBackFrom(env, cb, f, s, chunkPos);
      && (r.FindError? ==> back == (s0, SeekBackError))
      && (r.FindNothing? || (r.Found? && r.ch.NumRecords() == 0 && r.begin >= chunkPos) ==> back == (s0, NoPrevious))
      && (r.Found? && r.ch.NumRecords() == 0 && r.begin < chunkPos ==> back == SeekBackFrom(env, cb, f, s0, r.begin))
      && (r.Found? && r.ch.NumRecords() > 0 ==>
            var (s1, ok) := ReaderSpec.Seek(env, cb, f, s0, RecordPosition(r.begin, r.ch.NumRecords() - 1));
            back == (s1, if ok then SteppedBack else SeekBackError))
  {
    hide FindChunkBefore, ReaderSpec.Seek, HavingLooked;
  }

  lemma SeekScanStep(env: Env, cb: Option<Callback>, f: Bytes, s: Reader, scanPos: nat, numeric: nat)
    ensures var r, s0 := ReadHeaderAt(env.h, f, scanPos), HavingRead(env.h, f, s, scanPos);
      var scan := SeekScan(env, cb, f, s, scanPos, numeric);
      && (r == HeaderEof ==> scan == (AtEndOfScan(s0, scanPos), true))
      && (r != HeaderEof ==> scanPos < |f| + BLOCK_HEADER_SIZE) && (Readable(env.h, r) ==> r.HeaderOk?)
      && (r != HeaderEof && !Readable(env.h, r) ==>
            var (s1, go) := TryRecover(env.h, cb, f, s0, scanPos, None);
            scan == if go then SeekScan(env, cb, f, s1, s1.nextChunkFilePos, numeric) else (s1, false))
      && (Readable(env.h, r) && scanPos >= numeric ==>
            scan == ReaderSpec.Seek(env, cb, f, s0, RecordPosition(scanPos, 0)))
      && (Readable(env.h, r) && scanPos < numeric < scanPos + r.ch.NumRecords() ==>
            scan == ReaderSpec.Seek(env, cb, f, s0, RecordPosition(scanPos, numeric - scanPos)))
      && (Readable(env.h, r) && scanPos < numeric && scanPos + r.ch.NumRecords() <= numeric ==>
            scan == SeekScan(env, cb, f, s0, EndOf(scanPos, r.ch), numeric)
            && Gap(f, EndOf(scanPos, r.ch)) < Gap(f, scanPos))
      && (forall end | r != HeaderEof && scanPos < end :: Gap(f, end) < Gap(f, scanPos))
  {
    hide ReaderSpec.Seek, ReadHeaderAt, EndOf, RegionFor, HavingRead;
    HeaderEndAdvances(env.h, f, scanPos);
  }
}
