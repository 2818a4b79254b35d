/**
 A file cut short at any byte, read with a recovery callback: the records of every chunk that is
 wholly there come out, and what is left of the first other chunk is reported, in one region
 unless the cut falls in a block header or just behind one.
 */
module CutShort {
  import opened Bytes
  import opened BlockArithmetic
  import opened ChunkParsing
  import opened Layout
  import opened StoredChunks
  import opened Files
  import opened ReaderSpec
  import opened Recovery
  import opened Reading
  import Damage

  /** The first chunk from number `i` on of which too little is there to read it. */
  function FirstHidden(cs: seq<ChunkDesc>, g: Bytes, i: nat): (k: nat)
    requires i <= |cs|
    ensures i <= k <= |cs|
    decreases |cs| - i
  {
    if i == |cs| || !FullyVisible(g, Start(cs, i), cs[i]) then i else FirstHidden(cs, g, i + 1)
  }

  /**
   What is reported of a chunk that begins at `b` in a file that ends inside it, at `len`. A
   reader looking for the next chunk stops at a block header that is not wholly there; and it
   takes a position just behind a block header for another name of the boundary before it.
   */
  function Remainder(b: nat, len: nat): seq<Region> {
    var q := RoundDownToBlockBoundary(len);
    if len <= b then []
    else if len == q + BLOCK_HEADER_SIZE then
      if b == q then [Region(b, len + 1)] else [Region(b, len), Region(len, len + 1)]
    else if q < len < q + BLOCK_HEADER_SIZE && BoundaryAfter(b) == q then [Region(b, q), Region(q, len)]
    else [Region(b, len)]
  }

  /** A cut at a position where a chunk could end costs one region, up to the end of the file. */
  lemma OneRegionAtBoundary(b: nat, len: nat)
    requires IsPossibleChunkBoundary(len)
    ensures Remainder(b, len) == if len <= b then [] else [Region(b, len)]
  {
  }

  /** Wherever the cut falls, the regions leave nothing out and go no further than one position behind the end. */
  lemma RemainderCovers(b: nat, len: nat)
    requires IsPossibleChunkBoundary(b) && b < len
    ensures var r := Remainder(b, len);
      && 1 <= |r| <= 2 && r[0].begin == b && len <= r[|r| - 1].end <= len + 1
      && (|r| == 2 ==> r[0].end == r[1].begin)
      && forall i | 0 <= i < |r| :: r[i].begin < r[i].end
  {
    BoundaryBelow(b, len);
  }

  lemma BoundaryBelow(b: nat, len: nat)
    requires IsPossibleChunkBoundary(b) && b < len
    ensures var q := RoundDownToBlockBoundary(len);
      && IsBlockBoundary(q) && q <= len < q + BLOCK_SIZE
      && (len <= q + BLOCK_HEADER_SIZE ==> b <= q)
  {
  }

  // ---------------------------------------------------------------- the chunk that is cut

  /** Chunk `k` is the one the file ends in: some of it is there, but not enough. */
  ghost predicate EndsIn(env: Env, cs: seq<ChunkDesc>, g: Bytes, k: nat) {
    && PrefixOfFile(env, cs, g) && k < |cs| && Start(cs, k) < |g|
    && !FullyVisible(g, Start(cs, k), cs[k])
  }

  lemma EndsInFacts(env: Env, cs: seq<ChunkDesc>, g: Bytes, k: nat)
    requires EndsIn(env, cs, g, k)
    ensures ParseChunkAt(env, g, Start(cs, k)) == ParseUntrusted
    ensures |g| < Start(cs, k + 1)
    ensures CanonicalChunkAddress(Start(cs, k)) == Start(cs, k)
  {
    hide PrefixOfFile, ParseChunkAt, FullyVisible, Start, IsPossibleChunkBoundary, CanonicalChunkAddress;
    ChunkOfFileParses(env, cs, g, k);
    CanonicalFacts(Start(cs, k));
  }

  /** A block header that is wholly there still gives the ends of its chunk. */
  lemma VisibleBoundaryAgrees(env: Env, cs: seq<ChunkDesc>, g: Bytes, k: nat, q: nat)
    requires EndsIn(env, cs, g, k)
    requires IsBlockBoundary(q) && Start(cs, k) <= q && q + BLOCK_HEADER_SIZE <= |g|
    ensures Agrees(env.h, g, q, Start(cs, k), Start(cs, k + 1))
  {
    hide WellFormedFile, FileImage, FullyVisible, Start, IsPossibleChunkBoundary, IsBlockBoundary;
    EndsInFacts(env, cs, g, k);
    var f := FileImage(env.h, cs);
    BoundaryAgrees(env, cs, k, q);
    assert g[q..q + BLOCK_HEADER_SIZE] == f[q..q + BLOCK_HEADER_SIZE];
  }

  /** From the next boundary: its pointer leads past the end, unless its block header is not all there. */
  lemma ResyncOfCut(env: Env, cs: seq<ChunkDesc>, g: Bytes, k: nat, q: nat)
    requires EndsIn(env, cs, g, k) && IsBlockBoundary(q) && Start(cs, k) < q
    ensures Resync(env.h, g, |g|, q) == if q + BLOCK_HEADER_SIZE > |g| then q else Start(cs, k + 1)
    ensures Start(cs, k + 1) > |g|
  {
    hide EndsIn, Start, IsPossibleChunkBoundary, IsBlockBoundary;
    EndsInFacts(env, cs, g, k);
    if q + BLOCK_HEADER_SIZE <= |g| {
      VisibleBoundaryAgrees(env, cs, g, k, q);
    }
  }

  /** The region for a failure where nothing is trusted, once it is known where the next chunk is looked for. */
  lemma UntrustedRegionOf(h: Hash, g: Bytes, at: nat, prev: Option<nat>)
    ensures var begin := RegionBegin(at, prev);
      var resume := Min(Resync(h, g, |g|, BoundaryAfter(begin)), Max(|g|, begin));
      var end := Max(Max(resume, begin + 1), at + 1);
      RegionFor(h, g, |g|, at, None, prev)
        == Region(begin, if CanonicalChunkAddress(end) <= begin then end + 1 else end)
  {
    hide Resync, CanonicalChunkAddress, RegionBegin;
  }

  lemma FirstRegionOfCut(env: Env, cs: seq<ChunkDesc>, g: Bytes, k: nat)
    requires EndsIn(env, cs, g, k)
    ensures Remainder(Start(cs, k), |g|) != []
    ensures RegionFor(env.h, g, |g|, Start(cs, k), None, None) == Remainder(Start(cs, k), |g|)[0]
  {
    hide PrefixOfFile, FullyVisible, Start, Resync;
    var b := Start(cs, k);
    EndsInFacts(env, cs, g, k);
    ResyncOfCut(env, cs, g, k, BoundaryAfter(b));
    UntrustedRegionOf(env.h, g, b, None);
    BoundaryBelow(b, |g|);
    hide EndsIn, RegionFor;
    RemainderBegins(b, |g|);
  }

  /** The arithmetic of the first region. */
  lemma RemainderBegins(b: nat, len: nat)
    requires IsPossibleChunkBoundary(b) && b < len
    ensures var q := BoundaryAfter(b);
      var resume := if q < len < q + BLOCK_HEADER_SIZE then q else len;
      var r := Remainder(b, len);
      && r != [] && b < resume
      && r[0] == Region(b, if CanonicalChunkAddress(resume) <= b then resume + 1 else resume)
      && (|r| == 1 ==> len <= CanonicalChunkAddress(r[0].end))
  {
    BoundaryBelow(b, len);
  }

  // ---------------------------------------------------------------- behind the first region

  lemma StubParses(env: Env, g: Bytes, pos: nat)
    requires var b := CanonicalChunkAddress(pos);
      b < |g| && IsBlockBoundary(b) && |g| <= b + BLOCK_HEADER_SIZE
    ensures ParseChunkAt(env, g, pos) == ParseUntrusted
  {
    var b := CanonicalChunkAddress(pos);
    ReadEndMonotone(b, 0, CHUNK_HEADER_SIZE);
    hide ReadPos, PointsBack, CanonicalChunkAddress, ReadDataAt, HeaderReadFrom;
  }

  lemma NothingBehind(env: Env, g: Bytes, pos: nat, prev: Option<nat>)
    requires |g| <= CanonicalChunkAddress(pos)
    ensures DrainFrom(env, g, pos, prev) == ([], [])
  {
    hide DrainFrom, ParseChunkAt, CanonicalChunkAddress, RegionFor;
    ParseExtent(env, g, pos);
    Damage.DrainStep(env, g, pos, prev);
  }

  lemma ResyncPastEnd(h: Hash, g: Bytes, q: nat)
    requires IsBlockBoundary(q) && |g| < q + BLOCK_HEADER_SIZE
    ensures Resync(h, g, |g|, q) == q
  {
  }

  /** What is reported behind the first region. */
  lemma SecondRegionOfCut(env: Env, g: Bytes, b: nat)
    requires IsPossibleChunkBoundary(b) && b < |g|
    ensures var r := Remainder(b, |g|);
      r != [] && DrainFrom(env, g, r[0].end, Some(r[0].end)) == ([], r[1..])
  {
    hide DrainFrom, ParseChunkAt, RegionFor, Resync;
    RemainderBegins(b, |g|);
    var r := Remainder(b, |g|);
    if |r| == 1 {
      NothingBehind(env, g, r[0].end, Some(r[0].end));
      assert r[1..] == [];
    } else {
      var pos, q := r[0].end, RoundDownToBlockBoundary(|g|);
      BoundaryBelow(b, |g|);
      assert CanonicalChunkAddress(pos) == q;
      StubParses(env, g, pos);
      Damage.DrainStep(env, g, pos, Some(pos));
      UntrustedRegionOf(env.h, g, pos, Some(pos));
      assert RegionBegin(pos, Some(pos)) == pos;
      ResyncPastEnd(env.h, g, BoundaryAfter(pos));
      assert RegionFor(env.h, g, |g|, pos, None, Some(pos)) == r[1];
      NothingBehind(env, g, r[1].end, Some(r[1].end));
      assert r[1..] == [r[1]] + [] == [r[1]];
    }
  }

  // ---------------------------------------------------------------- draining

  /** Draining over the chunks that are wholly there delivers their records. */
  lemma {:induction false} DrainOverVisible(env: Env, cs: seq<ChunkDesc>, g: Bytes, i: nat, prev: Option<nat>)
    requires PrefixOfFile(env, cs, g) && i <= |cs|
    ensures var k := FirstHidden(cs, g, i);
      var d := DrainFrom(env, g, Start(cs, k), prev);
      DrainFrom(env, g, Start(cs, i), prev) == (Damage.RecordsBetween(cs, i, k) + d.0, d.1)
    decreases |cs| - i
  {
    hide DrainFrom, ParseChunkAt, PrefixOfFile, FullyVisible, Start, End, IsPossibleChunkBoundary, IsDataChunk,
         RegionFor;
    var k := FirstHidden(cs, g, i);
    var d := DrainFrom(env, g, Start(cs, k), prev);
    if i < k {
      VisibleChunkParses(env, cs, g, i);
      Damage.DrainStep(env, g, Start(cs, i), prev);
      DrainOverVisible(env, cs, g, i + 1, prev);
      var rest, d' := Damage.RecordsBetween(cs, i + 1, k), DrainFrom(env, g, Start(cs, i + 1), prev);
      assert cs[i].records == [] ==> cs[i].records + d'.0 == d'.0;
      assert cs[i].records + (rest + d.0) == (cs[i].records + rest) + d.0;
    } else {
      assert [] + d.0 == d.0;
    }
  }

  lemma VisibleChunkParses(env: Env, cs: seq<ChunkDesc>, g: Bytes, i: nat)
    requires PrefixOfFile(env, cs, g) && i < |cs| && FullyVisible(g, Start(cs, i), cs[i])
    ensures ParseChunkAt(env, g, Start(cs, i)) == Expected(Start(cs, i), cs[i])
    ensures End(Start(cs, i), cs[i]) == Start(cs, i + 1)
    ensures !IsDataChunk(cs[i]) ==> cs[i].records == []
  {
    ChunkOfFileParses(env, cs, g, i);
    EndFacts(Start(cs, i), cs[i]);
    hide PrefixOfFile, ParseChunkAt, End, IsPossibleChunkBoundary;
    ChunkEndIsNextStart(cs, i);
  }

  /** Draining a file that is cut short, from the first chunk. */
  lemma DrainOfCut(env: Env, cs: seq<ChunkDesc>, g: Bytes, prev: Option<nat>)
    requires PrefixOfFile(env, cs, g) && |cs| > 0 && prev == None
    ensures var k := FirstHidden(cs, g, 1);
      DrainFrom(env, g, Start(cs, 1), prev) == (Damage.RecordsBetween(cs, 1, k), Remainder(Start(cs, k), |g|))
  {
    hide DrainFrom, ParseChunkAt, PrefixOfFile, FullyVisible, Start, Remainder, RegionFor, Damage.RecordsBetween,
         CanonicalChunkAddress;
    var k := FirstHidden(cs, g, 1);
    var b, records := Start(cs, k), Damage.RecordsBetween(cs, 1, k);
    DrainOverVisible(env, cs, g, 1, prev);
    CanonicalFacts(b);
    assert records + [] == records;
    FirstHiddenIsHidden(cs, g, 1);
    WholeIsLonger(env, cs, g);
    if |g| <= b {
      NothingBehind(env, g, b, prev);
      NothingRemains(b, |g|);
    } else {
      EndsInFacts(env, cs, g, k);
      Damage.DrainStep(env, g, b, prev);
      FirstRegionOfCut(env, cs, g, k);
      SecondRegionOfCut(env, g, b);
      var r := Remainder(b, |g|);
      assert [r[0]] + r[1..] == r;
    }
  }

  lemma NothingRemains(b: nat, len: nat)
    requires len <= b
    ensures Remainder(b, len) == []
  {
  }

  lemma WholeIsLonger(env: Env, cs: seq<ChunkDesc>, g: Bytes)
    requires PrefixOfFile(env, cs, g)
    ensures |g| <= Start(cs, |cs|)
  {
  }

  lemma {:induction false} FirstHiddenIsHidden(cs: seq<ChunkDesc>, g: Bytes, i: nat)
    requires i <= |cs|
    ensures var k := FirstHidden(cs, g, i); k < |cs| ==> !FullyVisible(g, Start(cs, k), cs[k])
    decreases |cs| - i
  {
    hide Start, FullyVisible;
    if i < |cs| && FullyVisible(g, Start(cs, i), cs[i]) {
      FirstHiddenIsHidden(cs, g, i + 1);
    }
  }

  /**
   The first `len` bytes of a written file, `len` being any length that holds the preamble, read
   with any callback: the records of the chunks before the first that is not wholly there come
   out, in order, and nothing is reported but what remains of that one.
   */
  lemma CutFileLosesOneChunk(env: Env, cb: Callback, cs: seq<ChunkDesc>, len: nat, n: nat)
    requires WellFormedFile(env, cs) && Start(cs, |cs|) < TWO_64
    requires FIRST_CHUNK <= len <= |FileImage(env.h, cs)|
    requires var g := FileImage(env.h, cs)[..len];
      var k := FirstHidden(cs, g, 1);
      n == |Damage.RecordsBetween(cs, 1, k)| + |Remainder(Start(cs, k), len)| + 1
    ensures var g := FileImage(env.h, cs)[..len];
      var k := FirstHidden(cs, g, 1);
      var (s, rs) := Run(env, Some(cb), g, Initial(g), n);
      && Open(env.h, Some(cb), g) == Some(Initial(g))
      && |rs| == n && rs[n - 1].EndOfFile?
      && Delivered(rs) == Damage.RecordsBetween(cs, 1, k)
      && s.log == Remainder(Start(cs, k), len)
  {
    var g := FileImage(env.h, cs)[..len];
    assert PrefixOfFile(env, cs, g);
    hide WellFormedFile, FileImage, PrefixOfFile, Start, Run, Delivered, DrainFrom, Remainder, Damage.RecordsBetween,
         Open, PreambleIsIntact;
    PreambleOfFile(env, cs, g);
    DrainOfCut(env, cs, g, None);
    var k := FirstHidden(cs, g, 1);
    Damage.FromFresh(env, cb, g, Damage.RecordsBetween(cs, 1, k), Remainder(Start(cs, k), len), n);
  }

  // ---------------------------------------------------------------- less than a preamble

  /** Of a file cut inside its preamble everything is one region, and there is nothing behind it. */
  lemma StubOfFile(env: Env, cb: Callback, g: Bytes, prev: Option<nat>)
    requires 0 < |g| < FIRST_CHUNK
    ensures var region := Region(0, if |g| == BLOCK_HEADER_SIZE then |g| + 1 else |g|);
      && (Open(env.h, Some(cb), g).Some? <==> cb(0, region))
      && (Open(env.h, Some(cb), g).Some? ==>
            var s := Open(env.h, Some(cb), g).value;
            && s.log == [region] && s.nextChunkFilePos == region.end && s.decoder.None?
            && DrainFrom(env, g, s.nextChunkFilePos, prev) == ([], []))
  {
    hide DrainFrom, Resync;
    UntrustedRegionOf(env.h, g, 0, None);
    ResyncPastEnd(env.h, g, BoundaryAfter(0));
    var region := RegionFor(env.h, g, |g|, 0, None, None);
    hide RegionFor, PreambleIsIntact;
    NothingBehind(env, g, region.end, prev);
  }
}
