/** The 24-byte block header. */
module BlockHeaders {
  import opened Bytes

  datatype BlockHeader = BlockHeader(headerHash: nat, previousChunk: nat, nextChunk: nat) {

    function ToBytes(): (r: Bytes)
      ensures |r| == 24
    {
      LE64(headerHash) + LE64(previousChunk) + LE64(nextChunk)
    }

    predicate IsValid(h: Hash) { headerHash == h(ToBytes()[8..24]) }
  }

  function FromParts(h: Hash, previousChunk: nat, nextChunk: nat): BlockHeader {
    BlockHeader(h(LE64(previousChunk) + LE64(nextChunk)), previousChunk, nextChunk)
  }

  function FromBytes(bytes: Bytes): BlockHeader
    requires |bytes| == 24
  {
    BlockHeader(FromLittleEndian(bytes[0..8]), FromLittleEndian(bytes[8..16]), FromLittleEndian(bytes[16..24]))
  }

  /** A header built from its two pointers is valid and survives the trip through its bytes. */
  lemma WrittenHeaderReadsBack(h: Hash, previousChunk: U64, nextChunk: U64)
    ensures var bh := FromParts(h, previousChunk, nextChunk); bh.IsValid(h) && FromBytes(bh.ToBytes()) == bh
  {
    var bh := FromParts(h, previousChunk, nextChunk);
    LE64RoundTrip(bh.headerHash);
    LE64RoundTrip(previousChunk);
    LE64RoundTrip(nextChunk);
    var bytes := bh.ToBytes();
    assert bytes[0..8] == LE64(bh.headerHash);
    assert bytes[8..16] == LE64(previousChunk);
    assert bytes[16..24] == LE64(nextChunk);
    assert bytes[8..24] == LE64(previousChunk) + LE64(nextChunk);
  }

  /** Where the fields stand. */
  lemma FieldOffsets(bh: BlockHeader)
    requires bh.headerHash < TWO_64 && bh.previousChunk < TWO_64 && bh.nextChunk < TWO_64
    ensures FromLittleEndian(bh.ToBytes()[0..8]) == bh.headerHash
    ensures FromLittleEndian(bh.ToBytes()[8..16]) == bh.previousChunk
    ensures FromLittleEndian(bh.ToBytes()[16..24]) == bh.nextChunk
  {
    LE64RoundTrip(bh.headerHash);
    LE64RoundTrip(bh.previousChunk);
    LE64RoundTrip(bh.nextChunk);
    var bytes := bh.ToBytes();
    assert bytes[0..8] == LE64(bh.headerHash);
    assert bytes[8..16] == LE64(bh.previousChunk);
    assert bytes[16..24] == LE64(bh.nextChunk);
  }

  /** Every 24 bytes are the bytes of the header read from them, so validity is a statement about the bytes. */
  lemma ReadHeaderWritesBack(h: Hash, bytes: Bytes)
    requires |bytes| == 24
    ensures FromBytes(bytes).ToBytes() == bytes
    ensures FromBytes(bytes).IsValid(h) <==> bytes[0..8] == LE64(h(bytes[8..24]))
  {
    LE64Bound(bytes[0..8]);
    LE64Bound(bytes[8..16]);
    LE64Bound(bytes[16..24]);
    assert bytes == bytes[0..8] + bytes[8..16] + bytes[16..24];
    assert FromBytes(bytes).ToBytes()[8..24] == bytes[8..24];
    LE64RoundTrip(h(bytes[8..24]));
  }
}

/** The 40-byte chunk header. */
module ChunkHeaders {
  import opened Bytes

  const TWO_56: nat := 0x100_0000_0000_0000

  /** The type byte of a chunk; any other byte is an unknown type. */
  datatype ChunkType = FileSignature | FileMetadata | Padding | Simple | Transposed {
    function Code(): (r: Byte) {
      match this
      case FileSignature => 115
      case FileMetadata => 109
      case Padding => 112
      case Simple => 114
      case Transposed => 116
    }
  }

  function TypeOfByte(b: Byte): (r: Option<ChunkType>)
    ensures r.Some? ==> r.value.Code() == b
    ensures r.None? ==> forall t: ChunkType :: t.Code() != b
  {
    if b == 115 then Some(FileSignature)
    else if b == 109 then Some(FileMetadata)
    else if b == 112 then Some(Padding)
    else if b == 114 then Some(Simple)
    else if b == 116 then Some(Transposed)
    else None
  }

  datatype ChunkHeader = ChunkHeader(
    headerHash: nat, dataSize: nat, dataHash: nat, typeAndNumRecords: nat, decodedDataSize: nat)
  {
    function Body(): (r: Bytes)
      ensures |r| == 32
    {
      LE64(dataSize) + LE64(dataHash) + LE64(typeAndNumRecords) + LE64(decodedDataSize)
    }

    function ToBytes(): (r: Bytes)
      ensures |r| == 40
    {
      LE64(headerHash) + Body()
    }

    function NumRecords(): nat { typeAndNumRecords / 256 }

    function Type(): Option<ChunkType> { TypeOfByte(typeAndNumRecords % 256) }

    predicate IsHeaderValid(h: Hash) { headerHash == h(Body()) }

    predicate IsDataValid(h: Hash, data: Bytes) { dataHash == h(data) }
  }

  /** The record count is shifted left by eight bits in a 64-bit integer: its top eight bits are lost. */
  function Pack(t: Byte, numRecords: nat): (r: U64) { (numRecords % TWO_56) * 256 + t }

  function FromParts(h: Hash, data: Bytes, t: Byte, numRecords: nat, decodedDataSize: nat): ChunkHeader {
    var packed := Pack(t, numRecords);
    var body := LE64(|data|) + LE64(h(data)) + LE64(packed) + LE64(decodedDataSize);
    ChunkHeader(h(body), |data|, h(data), packed, decodedDataSize)
  }

  function FromBytes(bytes: Bytes): ChunkHeader
    requires |bytes| == 40
  {
    ChunkHeader(FromLittleEndian(bytes[0..8]), FromLittleEndian(bytes[8..16]), FromLittleEndian(bytes[16..24]),
                FromLittleEndian(bytes[24..32]), FromLittleEndian(bytes[32..40]))
  }

  /** Type byte and record count share one integer and are recovered from it exactly when the count fits in 56 bits. */
  lemma PackIsFaithful(t: Byte, numRecords: nat)
    ensures Pack(t, numRecords) % 256 == t
    ensures Pack(t, numRecords) / 256 == numRecords <==> numRecords < TWO_56
  {
  }

  lemma ToBytesFromBytes(ch: ChunkHeader)
    requires ch.headerHash < TWO_64 && ch.dataSize < TWO_64 && ch.dataHash < TWO_64
    requires ch.typeAndNumRecords < TWO_64 && ch.decodedDataSize < TWO_64
    ensures FromBytes(ch.ToBytes()) == ch
  {
    LE64RoundTrip(ch.headerHash);
    LE64RoundTrip(ch.dataSize);
    LE64RoundTrip(ch.dataHash);
    LE64RoundTrip(ch.typeAndNumRecords);
    LE64RoundTrip(ch.decodedDataSize);
    var bytes := ch.ToBytes();
    assert bytes[0..8] == LE64(ch.headerHash);
    assert bytes[8..16] == LE64(ch.dataSize);
    assert bytes[16..24] == LE64(ch.dataHash);
    assert bytes[24..32] == LE64(ch.typeAndNumRecords);
    assert bytes[32..40] == LE64(ch.decodedDataSize);
  }

  /**
   A header built for some data is read back from its bytes unchanged, valid for itself and
   for that data, with the type, record count and sizes it was built from.
   */
  lemma WrittenHeaderReadsBack(h: Hash, data: Bytes, t: Byte, numRecords: nat, decodedDataSize: U64)
    requires |data| < TWO_64 && numRecords < TWO_56
    ensures var ch := FromParts(h, data, t, numRecords, decodedDataSize);
      && FromBytes(ch.ToBytes()) == ch
      && ch.IsHeaderValid(h) && ch.IsDataValid(h, data)
      && ch.NumRecords() == numRecords && ch.Type() == TypeOfByte(t)
      && ch.dataSize == |data| && ch.decodedDataSize == decodedDataSize
  {
    ToBytesFromBytes(FromParts(h, data, t, numRecords, decodedDataSize));
    PackIsFaithful(t, numRecords);
  }

  /** Where the fields stand, and the parts of the one that is shared: the type in its first byte. */
  lemma FieldOffsets(h: Hash, data: Bytes, t: Byte, numRecords: nat, decodedDataSize: U64)
    requires |data| < TWO_64 && numRecords < TWO_56
    ensures var bytes := FromParts(h, data, t, numRecords, decodedDataSize).ToBytes();
      && FromLittleEndian(bytes[0..8]) == h(bytes[8..40])
      && FromLittleEndian(bytes[8..16]) == |data| && FromLittleEndian(bytes[16..24]) == h(data)
      && bytes[24] == t && FromLittleEndian(bytes[25..32]) == numRecords
      && FromLittleEndian(bytes[32..40]) == decodedDataSize
  {
    hide LE64, FromLittleEndian, Pack;
    var ch := FromParts(h, data, t, numRecords, decodedDataSize);
    var bytes, packed := ch.ToBytes(), Pack(t, numRecords);
    ToBytesFromBytes(ch);
    assert bytes[8..40] == ch.Body();
    assert bytes[24..32] == LE64(packed);
    PackedBytes(t, numRecords);
    assert bytes[24] == LE64(packed)[0];
    assert bytes[25..32] == bytes[24..32][1..];
  }

  lemma PackedBytes(t: Byte, numRecords: nat)
    requires numRecords < TWO_56
    ensures var s := LE64(Pack(t, numRecords)); s[0] == t && FromLittleEndian(s[1..]) == numRecords
  {
    var packed := Pack(t, numRecords);
    PackIsFaithful(t, numRecords);
    assert LE64(packed) == [packed % 256] + LittleEndian(packed / 256, 7);
    hide LittleEndian, FromLittleEndian;
    SevenBytes();
    LittleEndianRoundTrip(numRecords, 7);
  }

  lemma SevenBytes()
    ensures Pow256(7) == TWO_56
  {
    assert Pow256(3) == 0x100_0000;
    assert Pow256(5) == 0x100_0000_0000;
  }

  /** Every 40 bytes are the bytes of the header read from them. */
  lemma ReadHeaderWritesBack(bytes: Bytes)
    requires |bytes| == 40
    ensures FromBytes(bytes).ToBytes() == bytes
    ensures FromBytes(bytes).NumRecords() < TWO_56
    ensures FromBytes(bytes).dataSize < TWO_64
  {
    LE64Bound(bytes[0..8]);
    LE64Bound(bytes[8..16]);
    LE64Bound(bytes[16..24]);
    LE64Bound(bytes[24..32]);
    LE64Bound(bytes[32..40]);
    assert bytes == bytes[0..8] + bytes[8..16] + bytes[16..24] + bytes[24..32] + bytes[32..40];
  }

  /** The structural rules for chunks that carry no records. */
  predicate ValidSpecialChunk(ch: ChunkHeader, t: ChunkType) {
    match t
    case FileSignature => ch.dataSize == 0 && ch.NumRecords() == 0 && ch.decodedDataSize == 0
    case FileMetadata => ch.NumRecords() == 0
    case Padding => ch.NumRecords() == 0 && ch.decodedDataSize == 0
    case Simple => true
    case Transposed => true
  }
}
