/** Where a padding chunk must end so that the file size becomes a multiple of `padding`. */
module PaddingArithmetic {
  import opened BlockArithmetic

  /**
   A chunk without records can end at `q` when begun at `pos`: `q` can hold a chunk, and a chunk header fits
   in between.
   */
  predicate CanEndPaddingAt(pos: nat, q: nat) {
    IsPossibleChunkBoundary(q) && Distance(pos, q) >= CHUNK_HEADER_SIZE
  }

  lemma MulOrder(p: nat, i: nat, j: nat)
    requires p > 0
    ensures i <= j <==> p * i <= p * j
    ensures i < j ==> p * i + p <= p * j
  {
    assert (p * j) - (p * i) == p * (j - i);
    assert j - i >= 1 ==> p * (j - i) >= p;
    assert j - i <= -1 ==> p * (j - i) + p <= 0;
  }

  lemma NextMultiple(a: nat, b: nat, padding: nat)
    requires padding > 0 && a % padding == 0 && b % padding == 0 && a < b
    ensures a + padding <= b
  {
    assert a == padding * (a / padding) && b == padding * (b / padding);
    MulOrder(padding, a / padding, b / padding);
    MulOrder(padding, b / padding, a / padding);
  }

  lemma AddMultiple(a: nat, padding: nat)
    requires padding > 0 && a % padding == 0
    ensures (a + padding) % padding == 0
  {
    assert a + padding == padding * (a / padding + 1);
    MultipleIsMultiple(a / padding + 1, padding);
  }

  lemma MultipleIsMultiple(k: nat, padding: nat)
    requires padding > 0
    ensures (padding * k) % padding == 0
  {
    var q := (padding * k) / padding;
    assert padding * k == padding * q + (padding * k) % padding;
    MulOrder(padding, q, k);
    MulOrder(padding, k, q);
    MulOrder(padding, q + 1, k);
    assert padding * (q + 1) == padding * q + padding;
  }

  /** Some multiple of `padding` far enough out is a block boundary, where the search must stop. */
  function FarMultiple(pos: nat, padding: nat): nat { padding * (BLOCK_SIZE * (pos + 100)) }

  lemma FarBoundaryStops(pos: nat, k: nat)
    requires k >= pos + 100
    ensures pos + 100 * BLOCK_SIZE <= BLOCK_SIZE * k
    ensures CanEndPaddingAt(pos, BLOCK_SIZE * k)
  {
    assert Rank(BLOCK_SIZE * k) == USABLE_BLOCK_SIZE * k;
    RankMonotone(0, pos);
  }

  lemma FarMultipleStops(pos: nat, padding: nat)
    requires padding > 0
    ensures FarMultiple(pos, padding) % padding == 0
    ensures pos + 100 * BLOCK_SIZE <= FarMultiple(pos, padding)
    ensures CanEndPaddingAt(pos, FarMultiple(pos, padding))
  {
    hide CanEndPaddingAt, IsPossibleChunkBoundary, Distance;
    MultipleIsMultiple(BLOCK_SIZE * (pos + 100), padding);
    var k := padding * (pos + 100);
    MulOrder(pos + 100, 1, padding);
    assert FarMultiple(pos, padding) == BLOCK_SIZE * k;
    FarBoundaryStops(pos, k);
  }

  lemma ShortSpanHoldsNoHeader(pos: nat, q: nat)
    requires pos < q < pos + CHUNK_HEADER_SIZE
    ensures !CanEndPaddingAt(pos, q)
  {
    RankMonotone(pos, q);
  }

  lemma PadRemainder(pos: nat, padding: nat)
    requires padding > 0 && pos % padding != 0
    ensures var e := pos + (padding - pos % padding); e % padding == 0 && e < pos + padding
    ensures forall q | pos < q < pos + (padding - pos % padding) :: q % padding != 0
  {
    var base := padding * (pos / padding);
    assert pos == base + pos % padding;
    MultipleIsMultiple(pos / padding, padding);
    AddMultiple(base, padding);
    forall q | pos < q < base + padding
      ensures q % padding != 0
    {
      if q % padding == 0 {
        NextMultiple(base, q, padding);
      }
    }
  }

  /** An aligned position stays; from another one, padding ends at the first multiple where it can. */
  ghost predicate PadsTo(pos: nat, padding: nat, endPos: nat) {
    && (padding <= 1 || pos % padding == 0 ==> endPos == pos)
    && (padding > 1 && pos % padding != 0 ==>
          && pos < endPos && endPos % padding == 0 && CanEndPaddingAt(pos, endPos)
          && forall q | pos < q < endPos && q % padding == 0 :: !CanEndPaddingAt(pos, q))
  }

  /**
   The position itself when it is aligned; otherwise the least larger multiple of `padding`
   at which a padding chunk can end. It exists, so both loops terminate.
   */
  method PosAfterPadding(pos: nat, padding: nat) returns (endPos: nat)
    ensures PadsTo(pos, padding, endPos)
  {
    hide Distance, FarMultiple, IsPossibleChunkBoundary;
    if padding <= 1 {
      return pos;
    }
    var remainder := pos % padding;
    if remainder == 0 {
      return pos;
    }
    PadRemainder(pos, padding);
    var length := padding - remainder;
    while length < CHUNK_HEADER_SIZE
      invariant length > 0 && length < CHUNK_HEADER_SIZE + padding
      invariant (pos + length) % padding == 0
      invariant forall q | pos < q < pos + length && q % padding == 0 :: !CanEndPaddingAt(pos, q)
    {
      NothingBetween(pos, pos + length, padding);
      ShortSpanHoldsNoHeader(pos, pos + length);
      AddMultiple(pos + length, padding);
      length := length + padding;
    }
    endPos := pos + length;
    ghost var far := FarMultiple(pos, padding);
    FarMultipleStops(pos, padding);
    assert endPos <= far by {
      FarIsFar(pos, padding);
    }
    while true
      invariant pos < endPos <= far && endPos % padding == 0
      invariant forall q | pos < q < endPos && q % padding == 0 :: !CanEndPaddingAt(pos, q)
      decreases far - endPos
    {
      if IsPossibleChunkBoundary(endPos) && Distance(pos, endPos) >= CHUNK_HEADER_SIZE {
        return;
      }
      NextMultiple(endPos, far, padding);
      NothingBetween(pos, endPos, padding);
      AddMultiple(endPos, padding);
      endPos := endPos + padding;
    }
  }

  lemma FarIsFar(pos: nat, padding: nat)
    requires padding > 0
    ensures pos + CHUNK_HEADER_SIZE + padding <= FarMultiple(pos, padding)
  {
    var k := BLOCK_SIZE * (pos + 100);
    ProductBound(padding, k);
  }

  lemma {:induction false} ProductBound(x: nat, y: nat)
    requires x > 0 && y > 0
    ensures x + y - 1 <= x * y
  {
    if x > 1 {
      ProductBound(x - 1, y);
      assert x * y == (x - 1) * y + y;
    }
  }

  /** Between one multiple and the next there is none. */
  lemma NothingBetween(pos: nat, e: nat, padding: nat)
    requires padding > 0 && e % padding == 0
    ensures forall q | e < q < e + padding :: q % padding != 0
  {
    forall q | e < q < e + padding
      ensures q % padding != 0
    {
      if q % padding == 0 {
        NextMultiple(e, q, padding);
      }
    }
  }

  /** The padding chunk whose data fill the span ends exactly at the chosen position. */
  lemma PaddingChunkEndsThere(pos: nat, q: nat)
    requires IsPossibleChunkBoundary(pos) && pos < q && CanEndPaddingAt(pos, q)
    ensures ChunkEnd(pos, Distance(pos, q) - CHUNK_HEADER_SIZE, 0) == q
  {
    hide Distance, Advance;
    AdvanceUndoesDistance(pos, q);
    CanonicalFacts(pos);
    RoundUpIsLeast(pos);
  }
}
