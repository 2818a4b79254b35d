/** What a reader finds in the output of a writer, whole or cut short by a failed write. */
module WriterReader {
  import opened Bytes
  import opened Layout
  import opened BlockArithmetic
  import opened ChunkParsing
  import opened Files
  import opened ReaderSpec
  import opened RecordWriters
  import opened Cutting
  import Reading
  import Recovery

  /** Nothing accepted is still waiting to be written. */
  ghost predicate Flushed(w: RecordWriter)
    reads w, w.encoder, w.sink
  {
    w.Valid() && !w.failed && w.pendingRecordCount == 0
  }

  lemma FlushedHoldsAll(w: RecordWriter)
    requires Flushed(w)
    ensures WellFormedFile(w.env, w.chunks) && w.sink.out == FileImage(w.env.h, w.chunks)
    ensures |w.sink.out| == Start(w.chunks, |w.chunks|) && RecordsFrom(w.chunks, 0) == w.written
  {
    hide WellFormedFile, Start, RecordsFrom, FileImage, WithinThreshold, Accounted;
    FileImageLength(w.env.h, w.chunks);
    assert w.whole && w.encoder.records == [];
  }

  /** Reading `f` to its end returns exactly these records, in order, and reports no region. */
  predicate ReadsBack(env: Env, cb: Option<Callback>, f: Bytes, records: seq<Bytes>) {
    && Open(env.h, cb, f) == Some(Initial(f))
    && var n := |records|;
       var (s, rs) := Recovery.Run(env, cb, f, Initial(f), n + 1);
       && |rs| == n + 1 && s.log == []
       && (forall k | 0 <= k < n :: rs[k] == GotRecord(records[k]))
       && rs[n] == EndOfFile
  }

  lemma FileReadsBack(env: Env, cb: Option<Callback>, cs: seq<ChunkDesc>)
    requires WellFormedFile(env, cs) && Start(cs, |cs|) < TWO_64
    ensures ReadsBack(env, cb, FileImage(env.h, cs), RecordsFrom(cs, 0))
  {
    hide WellFormedFile, Start, RecordsFrom, FileImage, Recovery.Run, Open;
    Reading.WrittenFileReadsBack(env, cb, cs, FileImage(env.h, cs), |RecordsFrom(cs, 0)|);
  }

  /**
   After a flush or a close that succeeded, reading the output returns exactly the records the
   writer accepted, in order, and then the end of the file. A recovery callback is never called.
   */
  lemma FlushedRecordsReadBack(w: RecordWriter, cb: Option<Callback>)
    requires Flushed(w) && |w.sink.out| < TWO_64
    ensures ReadsBack(w.env, cb, w.sink.out, w.written)
  {
    FlushedHoldsAll(w);
    hide Flushed, ReadsBack, FileImage, RecordsFrom, WellFormedFile, Start;
    FileReadsBack(w.env, cb, w.chunks);
  }

  /**
   As long as the writer has not failed, it stands at a possible chunk boundary at the end of its
   output, and every block boundary there holds a valid header whose pointers give the beginning
   and the end of the one chunk that covers the boundary.
   */
  lemma WriterKeepsBoundaries(w: RecordWriter, q: nat) returns (i: nat)
    requires w.Valid() && !w.failed && w.sink.filePos < TWO_64
    requires IsBlockBoundary(q) && q < w.sink.filePos
    ensures w.sink.filePos == |w.sink.out| && IsPossibleChunkBoundary(w.sink.filePos)
    ensures i < |w.chunks| && Start(w.chunks, i) <= q < Start(w.chunks, i + 1)
    ensures Agrees(w.env.h, w.sink.out, q, Start(w.chunks, i), Start(w.chunks, i + 1))
    ensures forall j | 0 <= j < |w.chunks| && j != i :: !(Start(w.chunks, j) <= q < Start(w.chunks, j + 1))
  {
    hide WellFormedFile, Start, RecordsFrom, FileImage, WithinThreshold, Accounted, Agrees, IsBlockBoundary,
         IsPossibleChunkBoundary;
    FileImageLength(w.env.h, w.chunks);
    assert w.whole;
    i := BoundariesPointToTheirChunk(w.env, w.chunks, q);
  }

  /**
   Whatever happened to the writer, a reader without a callback over what reached the sink, opened
   on any part of that and each call seeing any other part, returns nothing but the first records
   the writer accepted.
   */
  lemma UnfinishedOutputReadsPrefix(w: RecordWriter, first: nat, lengths: seq<nat>)
    requires w.Valid() && Start(w.chunks, |w.chunks|) < TWO_64
    requires first <= |w.sink.out| && forall k | 0 <= k < |lengths| :: lengths[k] <= |w.sink.out|
    ensures var part := w.sink.out[..first];
      Open(w.env.h, None, part) == if 0 < first < FIRST_CHUNK then None else Some(Initial(part))
    ensures Recovery.Delivered(Reading.TailRun(w.env, w.sink.out, Initial(w.sink.out[..first]), lengths).1) <= w.written
  {
    hide WellFormedFile, Start, RecordsFrom, FileImage, WithinThreshold, Accounted, Recovery.Delivered, ReadRecord,
         Open;
    var whole := FileImage(w.env.h, w.chunks);
    assert w.sink.out <= whole;
    var s := Initial(w.sink.out[..first]);
    assert whole[..first] == w.sink.out[..first];
    SamePrefixes(w.env, w.sink.out, whole, s, lengths);
    Reading.GrowingFileLosesNothing(w.env, w.chunks, first, lengths, 0);
    assert RecordsFrom(w.chunks, 0) <= w.written;
  }

  lemma {:induction false} SamePrefixes(env: Env, part: Bytes, whole: Bytes, s: Reader, lengths: seq<nat>)
    requires part <= whole && forall k | 0 <= k < |lengths| :: lengths[k] <= |part|
    ensures Reading.TailRun(env, part, s, lengths) == Reading.TailRun(env, whole, s, lengths)
    decreases |lengths|
  {
    hide ReadRecord;
    if lengths != [] {
      assert part[..lengths[0]] == whole[..lengths[0]];
      SamePrefixes(env, part, whole, ReadRecord(env, None, part[..lengths[0]], s).0, lengths[1..]);
    }
  }
}
