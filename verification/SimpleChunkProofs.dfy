/** What encoding and decoding a simple chunk guarantee together. */
module SimpleChunkProofs {
  import opened Bytes
  import opened Varint
  import opened SimpleChunk
  import CH = ChunkHeaders

  function Lengths(records: seq<Bytes>): (r: seq<nat>)
    ensures |r| == |records|
  {
    if records == [] then [] else [|records[0]|] + Lengths(records[1..])
  }

  lemma {:induction false} CutConcat(records: seq<Bytes>)
    ensures Sum(Lengths(records)) == TotalSize(records) == |Concat(records)|
    ensures Cut(Concat(records), Lengths(records)) == records
  {
    if records != [] {
      CutConcat(records[1..]);
      assert Concat(records)[..|records[0]|] == records[0];
      assert Concat(records)[|records[0]|..] == Concat(records[1..]);
      assert Lengths(records)[1..] == Lengths(records[1..]);
    }
  }

  lemma {:induction false} ConcatCut(values: Bytes, sizes: seq<nat>)
    requires Sum(sizes) == |values|
    ensures Concat(Cut(values, sizes)) == values
    ensures TotalSize(Cut(values, sizes)) == |values|
  {
    if sizes == [] {
      assert Cut(values, sizes) == [];
    } else {
      var rest := Cut(values[sizes[0]..], sizes[1..]);
      ConcatCut(values[sizes[0]..], sizes[1..]);
      assert Cut(values, sizes)[1..] == rest;
      assert values[..sizes[0]] + values[sizes[0]..] == values;
    }
  }

  lemma FirstSize(data: Bytes, pos: nat, records: seq<Bytes>)
    requires pos <= |data| && data[pos..] == Sizes(records) && records != []
    ensures var k := |Encode(|records[0]|)|;
      && pos + k <= |data|
      && data[pos..pos + k] == Encode(|records[0]|)
      && data[pos + k..] == Sizes(records[1..])
  {
    hide Encode;
    var k := |Encode(|records[0]|)|;
    TakeDropConcat(Encode(|records[0]|), Sizes(records[1..]));
    SliceOfSuffix(data, pos, k);
  }

  lemma {:induction false} ParseEncodedSizes(data: Bytes, pos: nat, records: seq<Bytes>, total: nat, claim: nat)
    requires pos <= |data| && data[pos..] == Sizes(records)
    requires total + TotalSize(records) <= claim < TWO_64
    ensures ParseSizes(data, pos, |records|, total, claim) == Some((Lengths(records), |data|))
    decreases records
  {
    if records != [] {
      var size := |records[0]|;
      var k := |Encode(size)|;
      FirstSize(data, pos, records);
      DecodeEncoded(data, pos, size);
      ParseEncodedSizes(data, pos + k, records[1..], total + size, claim);
    }
  }

  lemma SectionOfEncodedSizes(records: seq<Bytes>)
    requires TotalSize(records) < TWO_64
    ensures SizesOfSection(Sizes(records), |records|, TotalSize(records)) == Some(Lengths(records))
  {
    assert Sizes(records)[0..] == Sizes(records);
    ParseEncodedSizes(Sizes(records), 0, records, 0, TotalSize(records));
    CutConcat(records);
  }

  lemma DecodePrefix(data: Bytes, v: nat, rest: Bytes)
    requires v < TWO_64 && data == Encode(v) + rest
    ensures Decode(data, 0, W64) == Success((v, |Encode(v)|))
    ensures data[|Encode(v)|..] == rest
  {
    assert data[0..0 + |Encode(v)|] == Encode(v);
    DecodeEncoded(data, 0, v);
  }

  /** A length-prefixed section and what follows it, found again from the front. */
  lemma SectionPrefix(data: Bytes, section: Bytes, rest: Bytes)
    requires |section| < TWO_64 && data == Encode(|section|) + section + rest
    ensures Decode(data, 0, W64) == Success((|section|, |Encode(|section|)|))
    ensures var start := |Encode(|section|)|;
      && start + |section| + |rest| == |data|
      && data[start..start + |section|] == section
      && data[start + |section|..] == rest
  {
    hide Decode, Encode;
    var start := |Encode(|section|)|;
    assert data == Encode(|section|) + (section + rest);
    DecodePrefix(data, |section|, section + rest);
    TakeDropConcat(section, rest);
    SliceOfSuffix(data, start, |section|);
  }

  lemma PlainRoundTrip(codec: Codec, records: seq<Bytes>)
    requires |EncodePlain(records)| < TWO_64
    ensures DecodeData(codec, EncodePlain(records), |records|, TotalSize(records)) == Some(records)
  {
    hide Decode, Encode, Sizes, Concat, Cut, Sum, Lengths, TotalSize, SizesOfSection;
    var data := EncodePlain(records);
    var sizes, values := Sizes(records), Concat(records);
    CutConcat(records);
    assert data[1..] == Encode(|sizes|) + sizes + values;
    SectionPrefix(data[1..], sizes, values);
    SectionOfEncodedSizes(records);
  }

  lemma CompressedParts(codec: Codec, t: Byte, records: seq<Bytes>)
    requires codec.Lawful()
    requires TotalSize(records) < TWO_64 && |records| < CH.TWO_56
    requires EncodeCompressed(codec, t, records).Some?
    ensures var data := EncodeCompressed(codec, t, records).value;
      var zs, zv := codec.compress(t, Sizes(records)).value, codec.compress(t, Concat(records)).value;
      var blob, valuesBlob := Encode(|Sizes(records)|) + zs, Encode(|Concat(records)|) + zv;
      && |Sizes(records)| <= 10 * |records|
      && |blob| < TWO_64
      && data[0] == t
      && data[1..] == Encode(|blob|) + blob + valuesBlob
  {
    hide Encode, Sizes, Concat, TotalSize;
    var sizes := Sizes(records);
    SizesLength(records);
    LengthIsEncodedLength(|sizes|);
    CapacityIsWidth();
    EncodedLengthBound(|sizes|, W64, 0);
  }

  lemma CompressedRoundTrip(codec: Codec, t: Byte, records: seq<Bytes>)
    requires codec.Lawful() && IsCompressed(t)
    requires TotalSize(records) < TWO_64 && |records| < CH.TWO_56
    requires EncodeCompressed(codec, t, records).Some?
    ensures DecodeData(codec, EncodeCompressed(codec, t, records).value, |records|, TotalSize(records)) == Some(records)
  {
    hide Encode, Decode, Sizes, Concat, Cut, Sum, Lengths, TotalSize, SizesOfSection;
    var data := EncodeCompressed(codec, t, records).value;
    CompressedParts(codec, t, records);
    hide EncodeCompressed;
    var zs, zv := codec.compress(t, Sizes(records)).value, codec.compress(t, Concat(records)).value;
    var blob, valuesBlob := Encode(|Sizes(records)|) + zs, Encode(|Concat(records)|) + zv;
    CutConcat(records);
    SectionPrefix(data[1..], blob, valuesBlob);
    DecodePrefix(blob, |Sizes(records)|, zs);
    DecodePrefix(valuesBlob, |Concat(records)|, zv);
    SectionOfEncodedSizes(records);
  }

  /** Decoding what the encoder produced returns the records, on the plain path and on the compressed one. */
  lemma EncodedDataDecodes(codec: Codec, t: Byte, records: seq<Bytes>)
    requires codec.Lawful() && (t == UNCOMPRESSED || IsCompressed(t))
    requires TotalSize(records) < TWO_64 && |records| < CH.TWO_56
    requires EncodeData(codec, t, records).Some? && |EncodeData(codec, t, records).value| < TWO_64
    ensures DecodeData(codec, EncodeData(codec, t, records).value, |records|, TotalSize(records)) == Some(records)
  {
    if t == UNCOMPRESSED {
      PlainRoundTrip(codec, records);
    } else {
      CompressedRoundTrip(codec, t, records);
    }
  }

  /** Where the values of a decoded chunk stand in its data: they, or their compressed form, run to the last byte. */
  ghost predicate ValuesEndData(codec: Codec, data: Bytes, values: Bytes) {
    && data != []
    && if data[0] == UNCOMPRESSED then |values| < |data| && data[|data| - |values|..] == values
       else exists k: nat | k <= |data| :: codec.decompress(data[0], data[k..]) == Some(values)
  }

  lemma PlainDecodeIsExact(payload: Bytes, n: nat, claim: nat)
    requires DecodePlain(payload, n, claim).Some?
    ensures var rs := DecodePlain(payload, n, claim).value;
      |rs| == n && TotalSize(rs) == claim <= |payload| && Concat(rs) == payload[|payload| - claim..]
  {
    var (len, start) := Decode(payload, 0, W64).value;
    var sizes := SizesOfSection(payload[start..start + len], n, claim).value;
    ConcatCut(payload[start + len..], sizes);
  }

  lemma CompressedDecodeIsExact(codec: Codec, t: Byte, payload: Bytes, n: nat, claim: nat)
    requires DecodeCompressed(codec, t, payload, n, claim).Some?
    ensures var rs := DecodeCompressed(codec, t, payload, n, claim).value;
      |rs| == n && TotalSize(rs) == claim
      && exists k: nat | k <= |payload| :: codec.decompress(t, payload[k..]) == Some(Concat(rs))
  {
    var (blobLen, start) := Decode(payload, 0, W64).value;
    var (sizesLen, skip) := Decode(payload[start..start + blobLen], 0, W64).value;
    var section := codec.DecompressCapped(t, payload[start..start + blobLen][skip..], sizesLen).value;
    var valuesBlob := payload[start + blobLen..];
    var (valuesLen, valuesSkip) := Decode(valuesBlob, 0, W64).value;
    var values := codec.DecompressCapped(t, valuesBlob[valuesSkip..], claim).value;
    ConcatCut(values, SizesOfSection(section, n, claim).value);
    assert valuesBlob[valuesSkip..] == payload[start + blobLen + valuesSkip..];
  }

  /**
   Whatever bytes are decoded successfully: exactly the claimed number of records comes out,
   of exactly the claimed total size, and together they are exactly what the values section
   holds, which ends where the data end.
   */
  lemma DecodedDataIsExact(codec: Codec, data: Bytes, n: nat, claim: nat)
    requires DecodeData(codec, data, n, claim).Some?
    ensures var rs := DecodeData(codec, data, n, claim).value;
      |rs| == n && TotalSize(rs) == claim && ValuesEndData(codec, data, Concat(rs))
  {
    var payload := data[1..];
    if data[0] == UNCOMPRESSED {
      PlainDecodeIsExact(payload, n, claim);
      ConcatLength(DecodeData(codec, data, n, claim).value);
      assert payload[|payload| - claim..] == data[|data| - claim..];
    } else {
      CompressedDecodeIsExact(codec, data[0], payload, n, claim);
      var rs := DecodeData(codec, data, n, claim).value;
      var k: nat :| k <= |payload| && codec.decompress(data[0], payload[k..]) == Some(Concat(rs));
      assert payload[k..] == data[k + 1..];
    }
  }
}
