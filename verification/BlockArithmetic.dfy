/**
 Positions in a file cut into 65536-byte blocks, each of which starts with a 24-byte
 block header. The specification uses two closed forms: `Rank(p)` counts the usable
 (non-block-header) bytes before position `p`, and `Phys(r)` is the position of usable
 byte number `r`. The loops of the program are proved equal to them.
 */
module BlockArithmetic {
  import opened Bytes

  const BLOCK_SIZE: nat := 65536
  const BLOCK_HEADER_SIZE: nat := 24
  const CHUNK_HEADER_SIZE: nat := 40
  const USABLE_BLOCK_SIZE: nat := 65512

  /** Where the first chunk after the file signature begins. */
  const FIRST_CHUNK: nat := 64

  predicate IsBlockBoundary(pos: nat) { pos % BLOCK_SIZE == 0 }

  function RoundDownToBlockBoundary(pos: nat): nat { pos - pos % BLOCK_SIZE }

  function RemainingInBlock(pos: nat): nat {
    if pos % BLOCK_SIZE == 0 then 0 else BLOCK_SIZE - pos % BLOCK_SIZE
  }

  function RemainingInBlockHeader(pos: nat): nat {
    if pos % BLOCK_SIZE < BLOCK_HEADER_SIZE then BLOCK_HEADER_SIZE - pos % BLOCK_SIZE else 0
  }

  /** Named "strictly after" in the program, but a boundary is returned unchanged. */
  function NextBlockBoundary(pos: nat): nat {
    if IsBlockBoundary(pos) then pos else RoundDownToBlockBoundary(pos) + BLOCK_SIZE
  }

  predicate IsPossibleChunkBoundary(pos: nat) { RemainingInBlock(pos) < USABLE_BLOCK_SIZE }

  function RoundUpToPossibleChunkBoundary(pos: nat): nat {
    var r := RemainingInBlock(pos);
    pos + if r > USABLE_BLOCK_SIZE - 1 then r - (USABLE_BLOCK_SIZE - 1) else 0
  }

  function CanonicalChunkAddress(pos: nat): nat {
    if pos % BLOCK_SIZE == BLOCK_HEADER_SIZE then pos - BLOCK_HEADER_SIZE else pos
  }

  /** How many usable bytes lie before `pos`. */
  function Rank(pos: nat): nat {
    pos / BLOCK_SIZE * USABLE_BLOCK_SIZE
    + if pos % BLOCK_SIZE > BLOCK_HEADER_SIZE then pos % BLOCK_SIZE - BLOCK_HEADER_SIZE else 0
  }

  /** The position of the usable byte that has `r` usable bytes before it. */
  function Phys(r: nat): nat {
    r / USABLE_BLOCK_SIZE * BLOCK_SIZE + BLOCK_HEADER_SIZE + r % USABLE_BLOCK_SIZE
  }

  /** Where `length` usable bytes laid out from `begin` end. */
  function Advance(begin: nat, length: nat): nat {
    if length == 0 then begin else Phys(Rank(begin) + length - 1) + 1
  }

  /** How many usable bytes lie in `[begin, pos)`. */
  function Distance(begin: nat, pos: nat): nat {
    if pos <= begin then 0 else Rank(pos) - Rank(begin) as int
  }

  function ChunkEnd(begin: nat, dataSize: nat, numRecords: nat): nat {
    var b := CanonicalChunkAddress(begin);
    Max(Advance(b, CHUNK_HEADER_SIZE + dataSize), RoundUpToPossibleChunkBoundary(b + numRecords))
  }

  // ---------------------------------------------------------------- ranks and positions

  lemma PhysRank(pos: nat)
    requires pos % BLOCK_SIZE >= BLOCK_HEADER_SIZE
    ensures Phys(Rank(pos)) == pos
  {
    assert Rank(pos) / USABLE_BLOCK_SIZE == pos / BLOCK_SIZE;
  }

  lemma RankPhys(r: nat)
    ensures Phys(r) % BLOCK_SIZE >= BLOCK_HEADER_SIZE
    ensures Rank(Phys(r)) == r
    ensures Rank(Phys(r) + 1) == r + 1
    ensures IsPossibleChunkBoundary(Phys(r) + 1)
  {
    assert Phys(r) / BLOCK_SIZE == r / USABLE_BLOCK_SIZE;
  }

  lemma RankMonotone(p: nat, q: nat)
    requires p <= q
    ensures Rank(p) <= Rank(q) <= Rank(p) + (q - p)
    ensures p < q && IsPossibleChunkBoundary(q) ==> Rank(p) < Rank(q)
    ensures p < q && p % BLOCK_SIZE >= BLOCK_HEADER_SIZE ==> Rank(p) < Rank(q)
  {
  }

  lemma PhysMonotone(r: nat, s: nat)
    requires r <= s
    ensures Phys(r) + (s - r) <= Phys(s)
  {
  }

  lemma PhysNotBefore(pos: nat)
    ensures pos <= Phys(Rank(pos))
  {
    if pos % BLOCK_SIZE >= BLOCK_HEADER_SIZE {
      PhysRank(pos);
    } else {
      assert Rank(pos) / USABLE_BLOCK_SIZE == pos / BLOCK_SIZE;
    }
  }

  /** Where laying out `length` bytes ends, and how the ranks of the two ends are related. */
  lemma AdvanceFacts(begin: nat, length: nat)
    ensures begin + length <= Advance(begin, length)
    ensures length > 0 ==> IsPossibleChunkBoundary(Advance(begin, length))
    ensures IsPossibleChunkBoundary(begin) ==> IsPossibleChunkBoundary(Advance(begin, length))
    ensures Rank(Advance(begin, length)) == Rank(begin) + length
  {
    hide Rank, Phys, IsPossibleChunkBoundary;
    PhysNotBefore(begin);
    if length > 0 {
      RankPhys(Rank(begin) + length - 1);
      PhysMonotone(Rank(begin), Rank(begin) + length - 1);
    }
  }

  /** Laying out `a` bytes and then `b` bytes is laying out `a + b` bytes. */
  lemma AdvanceAdditive(begin: nat, a: nat, b: nat)
    ensures Advance(Advance(begin, a), b) == Advance(begin, a + b)
  {
    AdvanceFacts(begin, a);
  }

  /** The end position is strictly monotone in the length. */
  lemma AdvanceStrictlyMonotone(begin: nat, a: nat, b: nat)
    requires a < b
    ensures Advance(begin, a) < Advance(begin, b)
  {
    AdvanceAdditive(begin, a, b - a);
    AdvanceFacts(Advance(begin, a), b - a);
  }

  /** `Distance` undoes `Advance` for every start, even one inside a block header. */
  lemma DistanceUndoesAdvance(begin: nat, length: nat)
    ensures Distance(begin, Advance(begin, length)) == length
  {
    AdvanceFacts(begin, length);
  }

  /** The usable byte just before a possible chunk boundary ends there. */
  lemma BoundaryIsEndOfUsableByte(pos: nat)
    requires pos > 0 && IsPossibleChunkBoundary(pos)
    ensures Rank(pos) > 0 && Phys(Rank(pos) - 1) + 1 == pos
  {
    PhysRank(pos - 1);
    assert Rank(pos) == Rank(pos - 1) + 1;
  }

  /** `Advance` undoes `Distance` exactly at the possible chunk boundaries (and at the start itself). */
  lemma AdvanceUndoesDistance(begin: nat, pos: nat)
    requires begin <= pos
    ensures Advance(begin, Distance(begin, pos)) == pos <==> pos == begin || IsPossibleChunkBoundary(pos)
  {
    var d := Distance(begin, pos);
    RankMonotone(begin, pos);
    AdvanceFacts(begin, d);
    hide Phys, Rank;
    if pos > begin && IsPossibleChunkBoundary(pos) {
      BoundaryIsEndOfUsableByte(pos);
    }
  }

  /** The closed form the reference implementation of the format uses. */
  function ClosedForm(begin: nat, length: nat): nat {
    begin + length
    + (length + (begin + USABLE_BLOCK_SIZE - 1) % BLOCK_SIZE) / USABLE_BLOCK_SIZE * BLOCK_HEADER_SIZE
  }

  lemma ClosedFormAtBoundary(begin: nat, length: nat)
    requires begin % BLOCK_SIZE == 0
    ensures ClosedForm(begin, length) == Advance(begin, length)
  {
    assert (begin + USABLE_BLOCK_SIZE - 1) % BLOCK_SIZE == USABLE_BLOCK_SIZE - 1;
    if length > 0 {
      var k := begin / BLOCK_SIZE;
      assert Rank(begin) == k * USABLE_BLOCK_SIZE;
      assert (Rank(begin) + length - 1) / USABLE_BLOCK_SIZE == k + (length - 1) / USABLE_BLOCK_SIZE;
      assert (length + USABLE_BLOCK_SIZE - 1) / USABLE_BLOCK_SIZE == 1 + (length - 1) / USABLE_BLOCK_SIZE;
    }
  }

  lemma ClosedFormInside(begin: nat, length: nat)
    requires begin % BLOCK_SIZE > 0
    ensures begin % BLOCK_SIZE > BLOCK_HEADER_SIZE ==> ClosedForm(begin, length) == Advance(begin, length)
    ensures begin % BLOCK_SIZE <= BLOCK_HEADER_SIZE ==> ClosedForm(begin, length) > Advance(begin, length)
  {
    var k, off := begin / BLOCK_SIZE, begin % BLOCK_SIZE;
    if off > BLOCK_HEADER_SIZE {
      assert (begin + USABLE_BLOCK_SIZE - 1) % BLOCK_SIZE == off - BLOCK_HEADER_SIZE - 1;
      if length > 0 {
        var x := length + off - BLOCK_HEADER_SIZE - 1;
        assert Rank(begin) + length - 1 == k * USABLE_BLOCK_SIZE + x;
        assert (Rank(begin) + length - 1) / USABLE_BLOCK_SIZE == k + x / USABLE_BLOCK_SIZE;
        assert (Rank(begin) + length - 1) % USABLE_BLOCK_SIZE == x % USABLE_BLOCK_SIZE;
      }
    } else {
      assert (begin + USABLE_BLOCK_SIZE - 1) % BLOCK_SIZE == off + USABLE_BLOCK_SIZE - 1;
      var y := length + off + USABLE_BLOCK_SIZE - 1;
      assert y / USABLE_BLOCK_SIZE == 1 + (length + off - 1) / USABLE_BLOCK_SIZE;
      if length > 0 {
        assert Rank(begin) + length - 1 == k * USABLE_BLOCK_SIZE + (length - 1);
        assert (Rank(begin) + length - 1) / USABLE_BLOCK_SIZE == k + (length - 1) / USABLE_BLOCK_SIZE;
      }
    }
  }

  /**
   The closed form is right for every length when the start can hold a chunk, and wrong for every length
   otherwise.
   */
  lemma ClosedFormIsExact(begin: nat, length: nat)
    ensures ClosedForm(begin, length) == Advance(begin, length) <==> IsPossibleChunkBoundary(begin)
  {
    if begin % BLOCK_SIZE == 0 {
      ClosedFormAtBoundary(begin, length);
    } else {
      ClosedFormInside(begin, length);
    }
  }

  // ---------------------------------------------------------------- chunk ends

  lemma CanonicalFacts(pos: nat)
    ensures IsPossibleChunkBoundary(pos) ==> CanonicalChunkAddress(pos) == pos
    ensures CanonicalChunkAddress(pos) <= pos <= CanonicalChunkAddress(pos) + BLOCK_HEADER_SIZE
    ensures CanonicalChunkAddress(CanonicalChunkAddress(pos)) == CanonicalChunkAddress(pos)
    ensures CanonicalChunkAddress(pos) == pos || IsBlockBoundary(CanonicalChunkAddress(pos))
  {
  }

  /** A position has another name exactly if it lies right behind a block header: the boundary before that. */
  lemma AliasesOfBoundaries(pos: nat)
    ensures CanonicalChunkAddress(pos) != pos <==> pos >= BLOCK_HEADER_SIZE && IsBlockBoundary(pos - BLOCK_HEADER_SIZE)
    ensures CanonicalChunkAddress(pos) != pos ==> CanonicalChunkAddress(pos) == pos - BLOCK_HEADER_SIZE
  {
  }

  /** Rounding up gives the least possible chunk boundary at or after the position. */
  lemma RoundUpIsLeast(pos: nat)
    ensures IsPossibleChunkBoundary(RoundUpToPossibleChunkBoundary(pos))
    ensures pos <= RoundUpToPossibleChunkBoundary(pos)
    ensures forall q | pos <= q < RoundUpToPossibleChunkBoundary(pos) :: !IsPossibleChunkBoundary(q)
  {
    var k, off := pos / BLOCK_SIZE, pos % BLOCK_SIZE;
    if 0 < off <= BLOCK_HEADER_SIZE {
      AtOffset(k, BLOCK_HEADER_SIZE + 1);
      forall q | pos <= q < k * BLOCK_SIZE + BLOCK_HEADER_SIZE + 1
        ensures !IsPossibleChunkBoundary(q)
      {
        AtOffset(k, q - k * BLOCK_SIZE);
      }
    }
  }

  lemma AtOffset(k: nat, off: nat)
    requires off < BLOCK_SIZE
    ensures (k * BLOCK_SIZE + off) % BLOCK_SIZE == off
  {
  }

  /**
   A chunk ends at a possible chunk boundary, after its own header and data and at least
   `numRecords` positions after its beginning; both addresses of a chunk that follows a
   block header give the same end.
   */
  lemma ChunkEndFacts(begin: nat, dataSize: nat, numRecords: nat)
    ensures var b, e := CanonicalChunkAddress(begin), ChunkEnd(begin, dataSize, numRecords);
      && IsPossibleChunkBoundary(e)
      && e == ChunkEnd(b, dataSize, numRecords)
      && b + CHUNK_HEADER_SIZE <= Advance(b, CHUNK_HEADER_SIZE) <= Advance(b, CHUNK_HEADER_SIZE + dataSize) <= e
      && b + numRecords <= e
      && begin < e
      && Rank(b) + CHUNK_HEADER_SIZE + dataSize <= Rank(e)
  {
    hide Rank, Phys, Advance, IsPossibleChunkBoundary, CanonicalChunkAddress, RoundUpToPossibleChunkBoundary;
    var b := CanonicalChunkAddress(begin);
    CanonicalFacts(begin);
    AdvanceFacts(b, CHUNK_HEADER_SIZE);
    AdvanceFacts(b, CHUNK_HEADER_SIZE + dataSize);
    AdvanceAdditive(b, CHUNK_HEADER_SIZE, dataSize);
    AdvanceFacts(Advance(b, CHUNK_HEADER_SIZE), dataSize);
    RoundUpIsLeast(b + numRecords);
    RankMonotone(Advance(b, CHUNK_HEADER_SIZE + dataSize), ChunkEnd(begin, dataSize, numRecords));
  }

  /** The next chunk could begin at `q`: header and data lie before it, and it leaves a byte per record. */
  predicate CanEndAt(begin: nat, dataSize: nat, numRecords: nat, q: nat) {
    var b := CanonicalChunkAddress(begin);
    IsPossibleChunkBoundary(q) && Advance(b, CHUNK_HEADER_SIZE + dataSize) <= q && b + numRecords <= q
  }

  /** A chunk ends no later than it must. */
  lemma ChunkEndIsLeast(begin: nat, dataSize: nat, numRecords: nat, q: nat)
    requires CanEndAt(begin, dataSize, numRecords, q)
    ensures ChunkEnd(begin, dataSize, numRecords) <= q
  {
    hide Rank, Phys, Advance, IsPossibleChunkBoundary, CanonicalChunkAddress, RoundUpToPossibleChunkBoundary;
    RoundUpIsLeast(CanonicalChunkAddress(begin) + numRecords);
  }

  // ---------------------------------------------------------------- the loops

  lemma AdvanceWithinBlock(pos: nat, length: nat)
    requires pos % BLOCK_SIZE >= BLOCK_HEADER_SIZE
    requires length <= BLOCK_SIZE - pos % BLOCK_SIZE
    ensures Advance(pos, length) == pos + length
  {
    if length > 0 {
      PhysRank(pos + length - 1);
      assert Rank(pos + length - 1) == Rank(pos) + length - 1;
    }
  }

  /** Skipping the rest of a block header does not change where a positive length ends. */
  lemma AdvanceFromInsideHeader(pos: nat, length: nat)
    requires length > 0
    ensures Advance(pos + RemainingInBlockHeader(pos), length) == Advance(pos, length)
  {
    assert Rank(pos + RemainingInBlockHeader(pos)) == Rank(pos);
  }

  /** Skipping a header, or the rest of one, does not pass a usable byte. */
  lemma SkipHeader(pos: nat)
    ensures var p := pos + RemainingInBlockHeader(pos);
      && p % BLOCK_SIZE >= BLOCK_HEADER_SIZE
      && Rank(p) == Rank(pos)
      && RemainingInBlock(p) == BLOCK_SIZE - p % BLOCK_SIZE
  {
  }

  lemma RankWithinBlock(pos: nat, step: nat)
    requires pos % BLOCK_SIZE >= BLOCK_HEADER_SIZE
    requires step <= RemainingInBlock(pos)
    ensures Rank(pos + step) == Rank(pos) + step
  {
  }

  method AddWithOverhead(chunkBegin: nat, length: nat) returns (pos: nat)
    ensures pos == Advance(chunkBegin, length)
  {
    hide Rank, Phys, RemainingInBlock, RemainingInBlockHeader;
    pos := chunkBegin;
    var remaining := length;
    while remaining != 0
      invariant Advance(pos, remaining) == Advance(chunkBegin, length)
      decreases remaining
    {
      AdvanceFromInsideHeader(pos, remaining);
      SkipHeader(pos);
      pos := pos + RemainingInBlockHeader(pos);
      var avail := RemainingInBlock(pos);
      if remaining <= avail {
        AdvanceWithinBlock(pos, remaining);
        pos := pos + remaining;
        remaining := 0;
      } else {
        AdvanceWithinBlock(pos, avail);
        AdvanceAdditive(pos, avail, remaining - avail);
        remaining := remaining - avail;
        pos := pos + avail;
      }
    }
  }

  method DistanceWithoutOverhead(chunkBegin: nat, pos: nat) returns (dataBytes: nat)
    ensures dataBytes == Distance(chunkBegin, pos)
  {
    hide Rank, RemainingInBlock, RemainingInBlockHeader;
    var cur := chunkBegin;
    dataBytes := 0;
    while cur < pos
      invariant chunkBegin <= cur
      invariant dataBytes == Rank(cur) - Rank(chunkBegin)
      invariant cur >= pos ==> dataBytes == Distance(chunkBegin, pos)
      decreases pos - cur
    {
      SkipHeader(cur);
      RankMonotone(cur, pos);
      var next := cur + RemainingInBlockHeader(cur);
      if next >= pos {
        RankMonotone(pos, next);
        return;
      }
      var step := Min(RemainingInBlock(next), pos - next);
      RankWithinBlock(next, step);
      dataBytes := dataBytes + step;
      cur := next + step;
    }
  }

  /** `chunk_end`, through the loop above. */
  method ComputeChunkEnd(chunkBegin: nat, dataSize: nat, numRecords: nat) returns (e: nat)
    ensures e == ChunkEnd(chunkBegin, dataSize, numRecords)
    ensures CanEndAt(chunkBegin, dataSize, numRecords, e)
    ensures forall q | CanEndAt(chunkBegin, dataSize, numRecords, q) :: e <= q
  {
    ChunkEndFacts(chunkBegin, dataSize, numRecords);
    forall q | CanEndAt(chunkBegin, dataSize, numRecords, q)
      ensures ChunkEnd(chunkBegin, dataSize, numRecords) <= q
    {
      ChunkEndIsLeast(chunkBegin, dataSize, numRecords, q);
    }
    hide CanEndAt;
    var begin := CanonicalChunkAddress(chunkBegin);
    var endFromData := AddWithOverhead(begin, CHUNK_HEADER_SIZE + dataSize);
    e := Max(endFromData, RoundUpToPossibleChunkBoundary(begin + numRecords));
  }
}
