/**
 The record reader as functions from state to state, over an arbitrary byte sequence `f`.
 The class in RecordReaders is proved equal to them; the theorems about reading, recovery
 and navigation are about them.
 */
module ReaderSpec {
  import opened Bytes
  import opened BlockArithmetic
  import opened ChunkParsing
  import CH = ChunkHeaders

  /** A decoder cannot fail once constructed: it is the list of its records and an index. */
  datatype Decoder = Decoder(records: seq<Bytes>, next: nat) {
    predicate HasNext() { next < |records| }
  }

  datatype Region = Region(begin: nat, end: nat)

  datatype RecordPosition = RecordPosition(chunkBegin: nat, recordIndex: nat) {
    function Numeric(): nat { chunkBegin + recordIndex }
  }

  /** The verdict of the recovery callback on the region it is shown, given how many it was shown before. */
  type Callback = (nat, Region) -> bool

  datatype Reader = Reader(
    streamLen: nat,  // the length of the stream when it was last measured
    currentChunkBegin: nat,
    nextChunkFilePos: nat,
    decoder: Option<Decoder>,
    currentRecordIndex: nat,
    pos: RecordPosition,
    lastPos: RecordPosition,
    atEof: bool,
    lastRecordIsValid: bool,
    log: seq<Region>)  // every region reported so far; the last one is `last_skipped_region`

  datatype ReadResult = GotRecord(record: Bytes) | EndOfFile | ReadError

  // ---------------------------------------------------------------- loading the next data chunk

  datatype Load =
    | Loaded(begin: nat, end: nat, records: seq<Bytes>)
    | LoadEof(at: nat)
    | LoadFailed(at: nat, trustedEnd: Option<nat>)

  /** How far the cursor can still move before every load meets the end of the file. */
  function Gap(f: Bytes, pos: nat): nat {
    if pos < |f| + BLOCK_HEADER_SIZE then |f| + BLOCK_HEADER_SIZE - pos else 0
  }

  function LoadFrom(env: Env, f: Bytes, pos: nat): (r: Load)
    ensures r.Loaded? ==> pos < r.end && Gap(f, r.end) < Gap(f, pos)
    ensures r.LoadFailed? ==> CanonicalChunkAddress(pos) <= r.at < |f| + BLOCK_HEADER_SIZE
    ensures r.LoadFailed? ==> pos <= r.at || (r.trustedEnd.Some? && pos < r.trustedEnd.value)
    ensures r.LoadFailed? && r.trustedEnd.Some? ==> r.at < r.trustedEnd.value
    decreases Gap(f, pos)
  {
    ParseExtent(env, f, pos);
    CanonicalFacts(pos);
    match ParseChunkAt(env, f, pos)
    case ParseEof => LoadEof(pos)
    case ParseUntrusted => LoadFailed(pos, None)
    case ParseTrusted(b, e, _) => LoadFailed(b, Some(e))
    case ParseSkip(_, e) => CanonicalFacts(e); LoadFrom(env, f, e)
    case ParseData(b, e, records) => Loaded(b, e, records)
  }

  // ---------------------------------------------------------------- measuring the stream

  /** The bytes of a chunk header at `b` can be gathered: they are there, and so is a block header in their way. */
  predicate HeaderGathered(h: Hash, f: Bytes, b: nat) {
    var q, dataBegin := NextBlockBoundary(b), ReadEnd(b, CHUNK_HEADER_SIZE);
    dataBegin <= |f| && (q < dataBegin ==> PointsBack(h, f, q, b))
  }

  /** Reading a header measures the stream again when the header is valid and claims more than the length known. */
  function LengthAfterHeader(h: Hash, f: Bytes, len: nat, pos: nat): (r: nat)
    ensures (r == len || r == |f|) && (len == |f| ==> r == |f|)
  {
    var b := CanonicalChunkAddress(pos);
    if !HeaderGathered(h, f, b) then len
    else
      var ch, dataBegin := HeaderReadFrom(f, b), ReadEnd(b, CHUNK_HEADER_SIZE);
      if ch.IsHeaderValid(h) && (dataBegin + ch.dataSize > Max(len, dataBegin) || b + ch.NumRecords() > Max(len, b))
      then |f|
      else len
  }

  /** The length known after loading from `pos`: every chunk passed over may have it measured again. */
  function LengthAfterLoad(env: Env, f: Bytes, len: nat, pos: nat): (r: nat)
    ensures (r == len || r == |f|) && (len == |f| ==> r == |f|)
    decreases Gap(f, pos)
  {
    ParseExtent(env, f, pos);
    CanonicalFacts(pos);
    var measured := LengthAfterHeader(env.h, f, len, pos);
    match ParseChunkAt(env, f, pos)
    case ParseSkip(_, e) => LengthAfterLoad(env, f, measured, e)
    case _ => measured
  }

  // ---------------------------------------------------------------- recovery

  /** Follows block headers from `boundary` to a position where a chunk may start. */
  function Resync(h: Hash, f: Bytes, len: nat, boundary: nat): (r: nat)
    requires IsBlockBoundary(boundary)
    ensures boundary <= r
    ensures IsPossibleChunkBoundary(r) || len <= r
    decreases if boundary <= |f| then |f| - boundary else 0
  {
    BoundaryStep(boundary);
    if boundary + BLOCK_HEADER_SIZE > |f| then boundary
    else if !ValidBlockHeaderAt(h, f, boundary) then Resync(h, f, len, boundary + BLOCK_SIZE)
    else
      var bh := BlockHeaderAt(f, boundary);
      if bh.previousChunk == 0 then boundary
      else
        var target := boundary + bh.nextChunk;
        if target > len || IsPossibleChunkBoundary(target) then target
        else
          ImplausiblePointer(boundary, target);
          Resync(h, f, len, NextBlockBoundary(target))
  }

  lemma ImplausiblePointer(boundary: nat, target: nat)
    requires IsBlockBoundary(boundary) && boundary <= target && !IsPossibleChunkBoundary(target)
    ensures IsBlockBoundary(NextBlockBoundary(target)) && boundary + BLOCK_SIZE <= NextBlockBoundary(target)
  {
    var b, t := boundary / BLOCK_SIZE, target / BLOCK_SIZE;
    assert boundary == BLOCK_SIZE * b && NextBlockBoundary(target) == BLOCK_SIZE * (t + 1);
  }

  lemma BoundaryStep(boundary: nat)
    requires IsBlockBoundary(boundary)
    ensures IsBlockBoundary(boundary + BLOCK_SIZE) && IsPossibleChunkBoundary(boundary)
  {
  }

  /** Where the region for a failure at `at` begins: regions reported while reading forward never overlap. */
  function RegionBegin(at: nat, previousEnd: Option<nat>): nat {
    var begin := CanonicalChunkAddress(at);
    if previousEnd.Some? && previousEnd.value <= at && begin < previousEnd.value then previousEnd.value else begin
  }

  function BoundaryAfter(begin: nat): (r: nat)
    ensures IsBlockBoundary(r) && begin < r <= begin + BLOCK_SIZE
  {
    if NextBlockBoundary(begin) == begin then begin + BLOCK_SIZE else NextBlockBoundary(begin)
  }

  /** The region for a failure at `at`, the stream being taken to end at `len`. */
  function RegionFor(h: Hash, f: Bytes, len: nat, at: nat, trustedEnd: Option<nat>,
                     previousEnd: Option<nat>): (r: Region)
    ensures r.begin < r.end && at < r.end
    ensures trustedEnd.Some? ==> trustedEnd.value <= r.end
  {
    var begin := RegionBegin(at, previousEnd);
    var resume := match trustedEnd
      case Some(e) => e
      case None => Min(Resync(h, f, len, BoundaryAfter(begin)), Max(len, begin));
    var end := Max(Max(resume, begin + 1), at + 1);
    Region(begin, if CanonicalChunkAddress(end) <= begin then end + 1 else end)
  }

  function PreviousEnd(log: seq<Region>): Option<nat> {
    if log == [] then None else Some(log[|log| - 1].end)
  }

  /** The state after a failure at `at` has been reported: the region is consumed whatever the verdict. */
  function Repositioned(s: Reader, region: Region): Reader {
    s.(lastRecordIsValid := false, decoder := None, atEof := false,
       nextChunkFilePos := region.end, log := s.log + [region])
  }

  /** `try_recover_at`: without a callback nothing changes; with one, its verdict comes back. */
  function TryRecover(h: Hash, cb: Option<Callback>, f: Bytes, s: Reader, at: nat,
                      trustedEnd: Option<nat>): (r: (Reader, bool))
    ensures cb.None? ==> r == (s, false)
    ensures cb.Some? ==> at < r.0.nextChunkFilePos
    ensures cb.Some? && trustedEnd.Some? ==> trustedEnd.value <= r.0.nextChunkFilePos
  {
    if cb.None? then (s, false)
    else
      var region := RegionFor(h, f, s.streamLen, at, trustedEnd, PreviousEnd(s.log));
      (Repositioned(s, region), cb.value(|s.log|, region))
  }

  // ---------------------------------------------------------------- reading

  function AfterLoad(s: Reader, begin: nat, end: nat, records: seq<Bytes>): Reader {
    s.(currentChunkBegin := begin, nextChunkFilePos := end, decoder := Some(Decoder(records, 0)),
       currentRecordIndex := 0, pos := RecordPosition(begin, 0), atEof := false)
  }

  function AfterRecord(s: Reader): Reader
    requires s.decoder.Some?
  {
    s.(decoder := Some(s.decoder.value.(next := s.decoder.value.next + 1)),
       lastPos := RecordPosition(s.currentChunkBegin, s.currentRecordIndex),
       currentRecordIndex := s.currentRecordIndex + 1,
       pos := RecordPosition(s.currentChunkBegin, s.currentRecordIndex + 1),
       lastRecordIsValid := true)
  }

  /** The reader once the next chunk has been looked for. */
  function AtRest(env: Env, f: Bytes, s: Reader): (r: Reader)
    ensures s.streamLen == |f| ==> r == s.(decoder := None)
  {
    s.(decoder := None, streamLen := LengthAfterLoad(env, f, s.streamLen, s.nextChunkFilePos))
  }

  function ReadRecord(env: Env, cb: Option<Callback>, f: Bytes, s: Reader): (Reader, ReadResult)
    decreases Gap(f, s.nextChunkFilePos)
  {
    if s.decoder.Some? && s.decoder.value.HasNext() then
      (AfterRecord(s), GotRecord(s.decoder.value.records[s.decoder.value.next]))
    else
      var s0 := AtRest(env, f, s);
      match LoadFrom(env, f, s.nextChunkFilePos)
      case Loaded(b, e, records) => ReadRecord(env, cb, f, AfterLoad(s0, b, e, records))
      case LoadEof(at) => (s0.(nextChunkFilePos := at, atEof := true), EndOfFile)
      case LoadFailed(at, trusted) =>
        var (s1, go) := TryRecover(env.h, cb, f, s0.(nextChunkFilePos := at), at, trusted);
        if go then ReadRecord(env, cb, f, s1) else (s1, ReadError)
  }

  /** One turn of `ReadRecord` with no record at hand. */
  lemma ReadRecordLoads(env: Env, cb: Option<Callback>, f: Bytes, s: Reader)
    requires !(s.decoder.Some? && s.decoder.value.HasNext())
    ensures var s0, load, r := AtRest(env, f, s), LoadFrom(env, f, s.nextChunkFilePos), ReadRecord(env, cb, f, s);
      && (load.Loaded? ==> r == ReadRecord(env, cb, f, AfterLoad(s0, load.begin, load.end, load.records)))
      && (load.LoadEof? ==> r == (s0.(nextChunkFilePos := load.at, atEof := true), EndOfFile))
      && (load.LoadFailed? ==>
            var (s1, go) := TryRecover(env.h, cb, f, s0.(nextChunkFilePos := load.at), load.at, load.trustedEnd);
            r == if go then ReadRecord(env, cb, f, s1) else (s1, ReadError))
  {
    hide LoadFrom, TryRecover, Gap, AtRest;
  }

  // ---------------------------------------------------------------- opening

  /** The first 64 bytes of every file that is not empty. */
  function SignatureHeaderBytes(h: Hash): Bytes {
    CH.FromParts(h, [], CH.ChunkType.FileSignature.Code(), 0, 0).ToBytes()
  }

  predicate PreambleIsIntact(h: Hash, f: Bytes) {
    |f| >= FIRST_CHUNK && ValidBlockHeaderAt(h, f, 0) && f[BLOCK_HEADER_SIZE..FIRST_CHUNK] == SignatureHeaderBytes(h)
  }

  /** A reader that has measured the stream and stands before the first chunk. */
  function Initial(f: Bytes): Reader {
    Reader(|f|, BLOCK_HEADER_SIZE, FIRST_CHUNK, None, 0, RecordPosition(0, 0), RecordPosition(0, 0), f == [], true, [])
  }

  /** The reader on a file, or `None` when it cannot be opened. An empty file has no records. */
  function Open(h: Hash, cb: Option<Callback>, f: Bytes): Option<Reader> {
    if f == [] || PreambleIsIntact(h, f) then Some(Initial(f))
    else
      var (s, go) := TryRecover(h, cb, f, Initial(f), 0, None);
      if go then Some(s) else None
  }

  // ---------------------------------------------------------------- seeking

  /** The begin of the last chunk `load_chunk_at` recognised on its way from `pos`. */
  function Touched(env: Env, f: Bytes, pos: nat, current: nat): nat
    decreases Gap(f, pos)
  {
    ParseExtent(env, f, pos);
    CanonicalFacts(pos);
    match ParseChunkAt(env, f, pos)
    case ParseEof => current
    case ParseUntrusted => current
    case ParseTrusted(b, _, dataHashOk) => if dataHashOk then b else current
    case ParseSkip(b, e) => Touched(env, f, e, b)
    case ParseData(b, _, _) => b
  }

  function Seek(env: Env, cb: Option<Callback>, f: Bytes, s: Reader, p: RecordPosition): (Reader, bool) {
    var c := CanonicalChunkAddress(p.chunkBegin);
    var s0 := s.(decoder := None, atEof := false, currentRecordIndex := 0, currentChunkBegin := Touched(env, f, c, c),
                 streamLen := LengthAfterLoad(env, f, s.streamLen, c));
    match LoadFrom(env, f, c)
    case Loaded(b, e, records) =>
      var k := Min(if b == c then p.recordIndex else 0, |records|);
      (s0.(decoder := Some(Decoder(records, k)), nextChunkFilePos := e, currentChunkBegin := b,
           currentRecordIndex := k, pos := RecordPosition(c, k)), true)
    case LoadEof(at) =>
      (s0.(atEof := true, nextChunkFilePos := at, pos := RecordPosition(c, p.recordIndex)), true)
    case LoadFailed(at, trusted) =>
      var (s1, go) := TryRecover(env.h, cb, f, s0.(nextChunkFilePos := at), at, trusted);
      if go then (s1.(pos := RecordPosition(s1.nextChunkFilePos, 0)), true) else (s1, false)
  }

  /** A header the scans may use: read and hash-valid. */
  predicate Readable(h: Hash, r: HeaderRead) { r.HeaderOk? && r.ch.IsHeaderValid(h) }

  function EndOf(pos: nat, ch: CH.ChunkHeader): nat { ChunkEnd(pos, ch.dataSize, ch.NumRecords()) }

  /** Where a scan for `target` starts: the chunk the block header at or below it points to, if that can be used. */
  function ScanOrigin(h: Hash, f: Bytes, target: nat): nat {
    var q := RoundDownToBlockBoundary(Min(target, |f|));
    if q == 0 || !ValidBlockHeaderAt(h, f, q) then FIRST_CHUNK
    else
      var bh := BlockHeaderAt(f, q);
      if bh.previousChunk == 0 then Usable(q)
      else if q + bh.nextChunk <= target then Usable(q + bh.nextChunk)
      else if bh.previousChunk > q then FIRST_CHUNK
      else Usable(q - bh.previousChunk)
  }

  function Usable(begin: nat): nat {
    if begin < FIRST_CHUNK || !IsPossibleChunkBoundary(begin) then FIRST_CHUNK else begin
  }

  function AtEndOfScan(s: Reader, scanPos: nat): Reader {
    s.(atEof := true, pos := RecordPosition(scanPos, 0), decoder := None, currentChunkBegin := scanPos,
       currentRecordIndex := 0, nextChunkFilePos := scanPos)
  }

  lemma HeaderEndAdvances(h: Hash, f: Bytes, pos: nat)
    ensures Readable(h, ReadHeaderAt(h, f, pos)) ==>
      pos < EndOf(pos, ReadHeaderAt(h, f, pos).ch) && pos < |f| + BLOCK_HEADER_SIZE
    ensures ReadHeaderAt(h, f, pos) != HeaderEof ==> pos < |f| + BLOCK_HEADER_SIZE
  {
    hide Advance, IsPossibleChunkBoundary;
    CanonicalFacts(pos);
    var r := ReadHeaderAt(h, f, pos);
    if r.HeaderOk? {
      ChunkEndFacts(pos, r.ch.dataSize, r.ch.NumRecords());
    }
  }

  /** The reader after the header at `pos` has been read. */
  function HavingRead(h: Hash, f: Bytes, s: Reader, pos: nat): (r: Reader)
    ensures s.streamLen == |f| ==> r == s
  {
    s.(streamLen := LengthAfterHeader(h, f, s.streamLen, pos))
  }

  /** The chunk-by-chunk walk of `seek_numeric` from `scanPos`. */
  function SeekScan(env: Env, cb: Option<Callback>, f: Bytes, s: Reader, scanPos: nat, numeric: nat): (Reader, bool)
    decreases Gap(f, scanPos)
  {
    HeaderEndAdvances(env.h, f, scanPos);
    var r, s0 := ReadHeaderAt(env.h, f, scanPos), HavingRead(env.h, f, s, scanPos);
    if r == HeaderEof then (AtEndOfScan(s0, scanPos), true)
    else if !Readable(env.h, r) then
      var (s1, go) := TryRecover(env.h, cb, f, s0, scanPos, None);
      if go then SeekScan(env, cb, f, s1, s1.nextChunkFilePos, numeric) else (s1, false)
    else if scanPos >= numeric then Seek(env, cb, f, s0, RecordPosition(scanPos, 0))
    else if scanPos + r.ch.NumRecords() > numeric then Seek(env, cb, f, s0, RecordPosition(scanPos, numeric - scanPos))
    else SeekScan(env, cb, f, s0, EndOf(scanPos, r.ch), numeric)
  }

  /** Looking for where to start measures the stream again when the target lies beyond the length known. */
  function LengthAfterOrigin(f: Bytes, len: nat, target: nat): (r: nat)
    ensures (r == len || r == |f|) && (len == |f| ==> r == |f|)
  {
    if target > len then |f| else len
  }

  function SeekNumeric(env: Env, cb: Option<Callback>, f: Bytes, s: Reader, numeric: nat): (Reader, bool) {
    var s0 := s.(streamLen := LengthAfterOrigin(f, s.streamLen, numeric));
    SeekScan(env, cb, f, s0, ScanOrigin(env.h, f, numeric), numeric)
  }

  datatype Find = FindError | FindNothing | Found(begin: nat, ch: CH.ChunkHeader)

  /** The first chunk of the walk from `scanPos` that ends after `target`. */
  function FindScan(h: Hash, f: Bytes, scanPos: nat, target: nat): Find
    decreases Gap(f, scanPos)
  {
    HeaderEndAdvances(h, f, scanPos);
    var r := ReadHeaderAt(h, f, scanPos);
    if r == HeaderEof then FindNothing
    else if !Readable(h, r) then FindError
    else if EndOf(scanPos, r.ch) > target then Found(scanPos, r.ch)
    else FindScan(h, f, EndOf(scanPos, r.ch), target)
  }

  function FindChunkBefore(h: Hash, f: Bytes, target: nat): Find {
    FindScan(h, f, ScanOrigin(h, f, target), target)
  }

  /** The length known after that walk. */
  function LengthAfterFind(h: Hash, f: Bytes, len: nat, scanPos: nat, target: nat): (r: nat)
    ensures (r == len || r == |f|) && (len == |f| ==> r == |f|)
    decreases Gap(f, scanPos)
  {
    HeaderEndAdvances(h, f, scanPos);
    var r, measured := ReadHeaderAt(h, f, scanPos), LengthAfterHeader(h, f, len, scanPos);
    if !Readable(h, r) || EndOf(scanPos, r.ch) > target then measured
    else LengthAfterFind(h, f, measured, EndOf(scanPos, r.ch), target)
  }

  /** The reader after the chunk before `target` has been looked for. */
  function HavingLooked(h: Hash, f: Bytes, s: Reader, target: nat): (r: Reader)
    ensures s.streamLen == |f| ==> r == s
  {
    s.(streamLen := LengthAfterFind(h, f, LengthAfterOrigin(f, s.streamLen, target), ScanOrigin(h, f, target), target))
  }

  datatype SeekBackResult = SteppedBack | NoPrevious | SeekBackError

  /** The backward walk of `seek_back` from the chunk at `chunkPos`. */
  function SeekBackFrom(env: Env, cb: Option<Callback>, f: Bytes, s: Reader, chunkPos: nat): (Reader, SeekBackResult)
    decreases chunkPos
  {
    if chunkPos <= FIRST_CHUNK then (s, NoPrevious)
    else
      var s0 := HavingLooked(env.h, f, s, chunkPos - 1);
      match FindChunkBefore(env.h, f, chunkPos - 1)
      case FindError => (s0, SeekBackError)
      case FindNothing => (s0, NoPrevious)
      case Found(begin, ch) =>
        if ch.NumRecords() > 0 then
          var (s1, ok) := Seek(env, cb, f, s0, RecordPosition(begin, ch.NumRecords() - 1));
          (s1, if ok then SteppedBack else SeekBackError)
        else if begin >= chunkPos then (s0, NoPrevious)
        else SeekBackFrom(env, cb, f, s0, begin)
  }

  function SeekBack(env: Env, cb: Option<Callback>, f: Bytes, s: Reader): (Reader, SeekBackResult) {
    if s.currentRecordIndex > 0 then
      var (s1, ok) := Seek(env, cb, f, s, RecordPosition(s.currentChunkBegin, s.currentRecordIndex - 1));
      (s1, if ok then SteppedBack else SeekBackError)
    else SeekBackFrom(env, cb, f, s, s.currentChunkBegin)
  }
}
