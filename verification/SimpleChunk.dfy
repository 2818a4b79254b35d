/**
 The data of a simple chunk: a section of record sizes, then the records themselves, each section optionally
 compressed.
 */
module SimpleChunk {
  import opened Bytes
  import opened Varint

  /** The compression libraries: each may refuse its input; the first argument is the compression type byte. */
  datatype Codec = Codec(compress: (Byte, Bytes) -> Option<Bytes>, decompress: (Byte, Bytes) -> Option<Bytes>) {

    /** Decompression undoes compression, and no buffer is longer than an allocation can be. */
    ghost predicate Lawful() {
      forall t: Byte, x: Bytes :: compress(t, x).Some? ==>
        |compress(t, x).value| < 0x4000_0000_0000_0000 && decompress(t, compress(t, x).value) == Some(x)
    }

    /** Decompression that refuses an output larger than the declared size. */
    function DecompressCapped(t: Byte, data: Bytes, maxLen: nat): Option<Bytes> {
      var r := decompress(t, data);
      if r.Some? && |r.value| <= maxLen then r else None
    }
  }

  const UNCOMPRESSED: Byte := 0

  /** The type bytes of the three compression libraries. */
  predicate IsCompressed(t: Byte) { t == 98 || t == 122 || t == 115 }

  // ---------------------------------------------------------------- what the sections are

  function Sizes(records: seq<Bytes>): Bytes {
    if records == [] then [] else Encode(|records[0]|) + Sizes(records[1..])
  }

  function Concat(records: seq<Bytes>): Bytes {
    if records == [] then [] else records[0] + Concat(records[1..])
  }

  function TotalSize(records: seq<Bytes>): nat {
    if records == [] then 0 else |records[0]| + TotalSize(records[1..])
  }

  lemma {:induction false} SectionsSnoc(records: seq<Bytes>, r: Bytes)
    ensures Sizes(records + [r]) == Sizes(records) + Encode(|r|)
    ensures Concat(records + [r]) == Concat(records) + r
    ensures TotalSize(records + [r]) == TotalSize(records) + |r|
  {
    if records != [] {
      SectionsSnoc(records[1..], r);
      assert (records + [r])[1..] == records[1..] + [r];
    } else {
      assert (records + [r])[1..] == [];
    }
  }

  lemma {:induction false} ConcatLength(records: seq<Bytes>)
    ensures |Concat(records)| == TotalSize(records)
  {
    if records != [] {
      ConcatLength(records[1..]);
    }
  }

  /** One varint of at most ten bytes per record, the bound the decoder relies on. */
  lemma {:induction false} SizesLength(records: seq<Bytes>)
    requires TotalSize(records) < TWO_64
    ensures |records| <= |Sizes(records)| <= 10 * |records|
  {
    if records != [] {
      CapacityIsWidth();
      EncodedLengthBound(|records[0]|, W64, 0);
      SizesLength(records[1..]);
    }
  }

  function EncodePlain(records: seq<Bytes>): Bytes {
    [UNCOMPRESSED] + Encode(|Sizes(records)|) + Sizes(records) + Concat(records)
  }

  function EncodeCompressed(codec: Codec, t: Byte, records: seq<Bytes>): Option<Bytes> {
    match (codec.compress(t, Sizes(records)), codec.compress(t, Concat(records)))
    case (Some(sizes), Some(values)) =>
      Some([t] + Encode(LengthVarintU64(|Sizes(records)|) + |sizes|)
           + Encode(|Sizes(records)|) + sizes
           + Encode(|Concat(records)|) + values)
    case _ => None
  }

  /** The chunk data for the records under a compression type; `None` if compression fails. */
  function EncodeData(codec: Codec, t: Byte, records: seq<Bytes>): Option<Bytes> {
    if t == UNCOMPRESSED then Some(EncodePlain(records)) else EncodeCompressed(codec, t, records)
  }

  // ---------------------------------------------------------------- encoder

  class SimpleChunkEncoder {
    const codec: Codec
    const compression: Byte
    var records: seq<Bytes>

    constructor (codec: Codec, compression: Byte)
      ensures this.codec == codec && this.compression == compression && records == []
    {
      this.codec, this.compression, this.records := codec, compression, [];
    }

    method AddRecord(data: Bytes)
      modifies this
      ensures records == old(records) + [data]
    {
      records := records + [data];
    }

    method BuildSections() returns (sizes: Bytes, values: Bytes)
      ensures sizes == Sizes(records) && values == Concat(records)
    {
      sizes, values := [], [];
      for i := 0 to |records|
        invariant sizes == Sizes(records[..i]) && values == Concat(records[..i])
      {
        SectionsSnoc(records[..i], records[i]);
        assert records[..i] + [records[i]] == records[..i + 1];
        var size := Encode(|records[i]|);
        sizes := sizes + size;
        values := values + records[i];
      }
      assert records[..|records|] == records;
    }

    /** The chunk data, the record count and the decoded size; `None` if compression fails. */
    method EncodeChunk() returns (r: Option<(Bytes, nat, nat)>)
      ensures r.Some? <==> EncodeData(codec, compression, records).Some?
      ensures r.Some? ==> r.value == (EncodeData(codec, compression, records).value, |records|, TotalSize(records))
    {
      var sizes, values := BuildSections();
      ConcatLength(records);
      if compression == UNCOMPRESSED {
        return Some(([UNCOMPRESSED] + Encode(|sizes|) + sizes + values, |records|, |values|));
      }
      var compressedSizes := codec.compress(compression, sizes);
      var compressedValues := codec.compress(compression, values);
      if compressedSizes.None? || compressedValues.None? {
        return None;
      }
      var blobLen := LengthVarintU64(|sizes|) + |compressedSizes.value|;
      var data := [compression] + Encode(blobLen);
      data := data + Encode(|sizes|) + compressedSizes.value;
      data := data + Encode(|values|) + compressedValues.value;
      return Some((data, |records|, |values|));
    }
  }

  // ---------------------------------------------------------------- what decoding means

  /** `n` sizes read from `data` at `pos`, and where reading stopped; their running total must never exceed `claim`. */
  function ParseSizes(data: Bytes, pos: nat, n: nat, total: nat, claim: nat): (r: Option<(seq<nat>, nat)>)
    ensures r.Some? ==> |r.value.0| == n
    decreases n
  {
    if n == 0 then Some(([], pos))
    else if pos >= |data| then None
    else
      match Decode(data, pos, W64)
      case Failure(_) => None
      case Success((size, consumed)) =>
        if total + size > claim then None
        else
          match ParseSizes(data, pos + consumed, n - 1, total + size, claim)
          case None => None
          case Some((rest, end)) => Some(([size] + rest, end))
  }

  function Sum(sizes: seq<nat>): nat {
    if sizes == [] then 0 else sizes[0] + Sum(sizes[1..])
  }

  /** The sizes section must be exactly `n` sizes adding up to exactly the claim. */
  function SizesOfSection(data: Bytes, n: nat, claim: nat): (r: Option<seq<nat>>)
    ensures r.Some? ==> |r.value| == n && Sum(r.value) == claim
  {
    match ParseSizes(data, 0, n, 0, claim)
    case Some((sizes, end)) => if end == |data| && Sum(sizes) == claim then Some(sizes) else None
    case None => None
  }

  /** The values cut into pieces of the given sizes. */
  function Cut(values: Bytes, sizes: seq<nat>): (r: seq<Bytes>)
    requires Sum(sizes) == |values|
    ensures |r| == |sizes|
  {
    if sizes == [] then [] else [values[..sizes[0]]] + Cut(values[sizes[0]..], sizes[1..])
  }

  function DecodePlain(payload: Bytes, n: nat, claim: nat): Option<seq<Bytes>> {
    match Decode(payload, 0, W64)
    case Failure(_) => None
    case Success((len, start)) =>
      if len > |payload| - start then None
      else
        match SizesOfSection(payload[start..start + len], n, claim)
        case None => None
        case Some(sizes) =>
          if start + len + claim != |payload| then None else Some(Cut(payload[start + len..], sizes))
  }

  function DecodeCompressed(codec: Codec, t: Byte, payload: Bytes, n: nat, claim: nat): Option<seq<Bytes>> {
    match Decode(payload, 0, W64)
    case Failure(_) => None
    case Success((blobLen, start)) =>
      if blobLen > |payload| - start then None
      else
        var blob := payload[start..start + blobLen];
        match Decode(blob, 0, W64)
        case Failure(_) => None
        case Success((sizesLen, skip)) =>
          if sizesLen > 10 * n then None
          else
            match codec.DecompressCapped(t, blob[skip..], sizesLen)
            case None => None
            case Some(section) =>
              if |section| != sizesLen then None
              else DecodeValues(codec, t, payload[start + blobLen..], SizesOfSection(section, n, claim), claim)
  }

  function DecodeValues(codec: Codec, t: Byte, blob: Bytes, sizes: Option<seq<nat>>, claim: nat): Option<seq<Bytes>>
    requires sizes.Some? ==> Sum(sizes.value) == claim
  {
    if sizes.None? then None
    else
      match Decode(blob, 0, W64)
      case Failure(_) => None
      case Success((valuesLen, skip)) =>
        if valuesLen != claim then None
        else
          match codec.DecompressCapped(t, blob[skip..], claim)
          case None => None
          case Some(values) => if |values| != claim then None else Some(Cut(values, sizes.value))
  }

  /** The records of a simple chunk whose header claims `n` records of `claim` bytes in all. */
  function DecodeData(codec: Codec, data: Bytes, n: nat, claim: nat): Option<seq<Bytes>> {
    if data == [] then None
    else if data[0] == UNCOMPRESSED then DecodePlain(data[1..], n, claim)
    else if IsCompressed(data[0]) then DecodeCompressed(codec, data[0], data[1..], n, claim)
    else None
  }

  // ---------------------------------------------------------------- decoder

  /** Contiguous ranges: each starts where the one before it ends. */
  ghost predicate Contiguous(ranges: seq<(nat, nat)>, sizes: seq<nat>) {
    && |ranges| == |sizes|
    && forall i | 0 <= i < |ranges| :: ranges[i] == (Sum(sizes[..i]), sizes[i])
  }

  lemma {:induction false} SumSnoc(sizes: seq<nat>, x: nat)
    ensures Sum(sizes + [x]) == Sum(sizes) + x
  {
    if sizes != [] {
      SumSnoc(sizes[1..], x);
      assert (sizes + [x])[1..] == sizes[1..] + [x];
    } else {
      assert (sizes + [x])[1..] == [];
    }
  }

  lemma {:induction false} SumOfPrefix(sizes: seq<nat>, i: nat)
    requires i <= |sizes|
    ensures Sum(sizes[..i]) + Sum(sizes[i..]) == Sum(sizes)
  {
    if i == 0 {
      assert sizes[..0] == [] && sizes[0..] == sizes;
    } else {
      SumOfPrefix(sizes[1..], i - 1);
      assert sizes[..i][1..] == sizes[1..][..i - 1];
      assert sizes[i..] == sizes[1..][i - 1..];
    }
  }

  /** Piece `i` is the range that starts where the sizes before it add up to. */
  lemma {:induction false} CutAt(values: Bytes, sizes: seq<nat>, i: nat)
    requires Sum(sizes) == |values| && i < |sizes|
    ensures Sum(sizes[..i]) + sizes[i] <= |values|
    ensures Cut(values, sizes)[i] == values[Sum(sizes[..i])..Sum(sizes[..i]) + sizes[i]]
  {
    SumOfPrefix(sizes, i);
    if i > 0 {
      CutAt(values[sizes[0]..], sizes[1..], i - 1);
      assert sizes[..i][1..] == sizes[1..][..i - 1];
    } else {
      assert sizes[..0] == [];
    }
  }

  /** The result of a loop that has read `sizes` and still has `n` to read. */
  function PrependSizes(sizes: seq<nat>, r: Option<(seq<nat>, nat)>): Option<(seq<nat>, nat)> {
    match r
    case Some((rest, end)) => Some((sizes + rest, end))
    case None => None
  }

  lemma ParseSizesStep(data: Bytes, pos: nat, n: nat, total: nat, claim: nat, sizes: seq<nat>)
    requires n > 0 && pos < |data| && Decode(data, pos, W64).Success?
    requires total + Decode(data, pos, W64).value.0 <= claim
    ensures var (size, consumed) := Decode(data, pos, W64).value;
      PrependSizes(sizes, ParseSizes(data, pos, n, total, claim))
      == PrependSizes(sizes + [size], ParseSizes(data, pos + consumed, n - 1, total + size, claim))
  {
    var (size, consumed) := Decode(data, pos, W64).value;
    var r := ParseSizes(data, pos + consumed, n - 1, total + size, claim);
    if r.Some? {
      assert sizes + ([size] + r.value.0) == (sizes + [size]) + r.value.0;
    }
  }

  /** The size-parsing loop of both decoding paths, with its two final checks. */
  method ParseSizeSection(data: Bytes, n: nat, claim: nat) returns (r: Option<seq<nat>>)
    ensures r == SizesOfSection(data, n, claim)
  {
    var pos, total := 0, 0;
    var sizes: seq<nat> := [];
    ghost var whole := ParseSizes(data, 0, n, 0, claim);
    assert whole.Some? ==> [] + whole.value.0 == whole.value.0;
    for i := 0 to n
      invariant total == Sum(sizes)
      invariant PrependSizes(sizes, ParseSizes(data, pos, n - i, total, claim)) == whole
    {
      if pos >= |data| {
        return None;
      }
      var d := DecodeVarint(data, pos, W64);
      if d.Failure? {
        return None;
      }
      var (size, consumed) := d.value;
      if total + size > claim {
        return None;
      }
      ParseSizesStep(data, pos, n - i, total, claim, sizes);
      SumSnoc(sizes, size);
      pos := pos + consumed;
      total := total + size;
      sizes := sizes + [size];
    }
    assert sizes + [] == sizes;
    if pos != |data| || total != claim {
      return None;
    }
    return Some(sizes);
  }

  class SimpleChunkDecoder {
    const ranges: seq<(nat, nat)>
    const values: Bytes
    var nextRecord: nat

    ghost predicate Valid()
      reads this
    {
      && nextRecord <= |ranges|
      && forall i | 0 <= i < |ranges| :: ranges[i].0 + ranges[i].1 <= |values|
    }

    function Records(): (r: seq<Bytes>)
      requires forall i | 0 <= i < |ranges| :: ranges[i].0 + ranges[i].1 <= |values|
      ensures |r| == |ranges|
    {
      seq<Bytes>(|ranges|, i requires 0 <= i < |ranges| => values[ranges[i].0..ranges[i].0 + ranges[i].1])
    }

    constructor (ranges: seq<(nat, nat)>, values: Bytes)
      ensures this.ranges == ranges && this.values == values && nextRecord == 0
    {
      this.ranges, this.values, this.nextRecord := ranges, values, 0;
    }

    /** Yields the records in order, then nothing. */
    method ReadRecord() returns (r: Option<Bytes>)
      requires Valid()
      modifies this
      ensures Valid()
      ensures if old(nextRecord) < |ranges|
        then r == Some(Records()[old(nextRecord)]) && nextRecord == old(nextRecord) + 1
        else r == None && nextRecord == old(nextRecord)
    {
      if nextRecord >= |ranges| {
        return None;
      }
      var (offset, len) := ranges[nextRecord];
      nextRecord := nextRecord + 1;
      return Some(values[offset..offset + len]);
    }
  }

  method DecoderFor(values: Bytes, sizes: seq<nat>) returns (d: SimpleChunkDecoder)
    requires Sum(sizes) == |values|
    ensures fresh(d) && d.Valid() && d.nextRecord == 0
    ensures d.values == values && Contiguous(d.ranges, sizes)
    ensures d.Records() == Cut(values, sizes)
  {
    var ranges: seq<(nat, nat)> := [];
    var offset := 0;
    for i := 0 to |sizes|
      invariant offset == Sum(sizes[..i])
      invariant Contiguous(ranges, sizes[..i])
    {
      SumSnoc(sizes[..i], sizes[i]);
      assert sizes[..i] + [sizes[i]] == sizes[..i + 1];
      assert forall j | 0 <= j <= i :: sizes[..i + 1][..j] == sizes[..j] && sizes[..i][..j] == sizes[..j];
      ranges := ranges + [(offset, sizes[i])];
      offset := offset + sizes[i];
    }
    assert sizes[..|sizes|] == sizes;
    d := new SimpleChunkDecoder(ranges, values);
    forall i | 0 <= i < |sizes|
      ensures ranges[i].0 + ranges[i].1 <= |values|
        && values[ranges[i].0..ranges[i].0 + ranges[i].1] == Cut(values, sizes)[i]
    {
      CutAt(values, sizes, i);
    }
  }

  /** Both decoding paths, on the bytes after the compression type byte. */
  method NewDecoder(codec: Codec, data: Bytes, n: nat, claim: nat) returns (r: Option<SimpleChunkDecoder>)
    ensures r.Some? <==> DecodeData(codec, data, n, claim).Some?
    ensures r.Some? ==> fresh(r.value) && r.value.Valid() && r.value.nextRecord == 0
    ensures r.Some? ==> r.value.Records() == DecodeData(codec, data, n, claim).value
  {
    if data == [] {
      return None;
    }
    if data[0] == UNCOMPRESSED {
      r := DecodeUncompressed(data[1..], n, claim);
    } else if IsCompressed(data[0]) {
      r := DecodeCompressedData(codec, data[0], data[1..], n, claim);
    } else {
      r := None;
    }
  }

  method DecodeUncompressed(payload: Bytes, n: nat, claim: nat) returns (r: Option<SimpleChunkDecoder>)
    ensures r.Some? <==> DecodePlain(payload, n, claim).Some?
    ensures r.Some? ==> fresh(r.value) && r.value.Valid() && r.value.nextRecord == 0
    ensures r.Some? ==> r.value.Records() == DecodePlain(payload, n, claim).value
  {
    var lenRead := DecodeVarint(payload, 0, W64);
    if lenRead.Failure? {
      return None;
    }
    var (len, start) := lenRead.value;
    if len > |payload| - start {
      return None;
    }
    var sizes := ParseSizeSection(payload[start..start + len], n, claim);
    if sizes.None? {
      return None;
    }
    var valuesStart := start + len;
    var valuesEnd := valuesStart + claim;
    if valuesEnd > |payload| || valuesEnd < |payload| {
      return None;
    }
    var d := DecoderFor(payload[valuesStart..], sizes.value);
    return Some(d);
  }

  method DecodeCompressedData(codec: Codec, t: Byte, payload: Bytes, n: nat, claim: nat)
    returns (r: Option<SimpleChunkDecoder>)
    ensures r.Some? <==> DecodeCompressed(codec, t, payload, n, claim).Some?
    ensures r.Some? ==> fresh(r.value) && r.value.Valid() && r.value.nextRecord == 0
    ensures r.Some? ==> r.value.Records() == DecodeCompressed(codec, t, payload, n, claim).value
  {
    var blobRead := DecodeVarint(payload, 0, W64);
    if blobRead.Failure? {
      return None;
    }
    var (blobLen, start) := blobRead.value;
    if blobLen > |payload| - start {
      return None;
    }
    var blob := payload[start..start + blobLen];
    var lenRead := DecodeVarint(blob, 0, W64);
    if lenRead.Failure? {
      return None;
    }
    var (sizesLen, skip) := lenRead.value;
    if sizesLen > 10 * n {
      return None;
    }
    var section := codec.DecompressCapped(t, blob[skip..], sizesLen);
    if section.None? || |section.value| != sizesLen {
      return None;
    }
    var sizes := ParseSizeSection(section.value, n, claim);
    if sizes.None? {
      return None;
    }
    var valuesBlob := payload[start + blobLen..];
    var valuesRead := DecodeVarint(valuesBlob, 0, W64);
    if valuesRead.Failure? {
      return None;
    }
    var (valuesLen, valuesSkip) := valuesRead.value;
    if valuesLen != claim {
      return None;
    }
    var values := codec.DecompressCapped(t, valuesBlob[valuesSkip..], claim);
    if values.None? || |values.value| != claim {
      return None;
    }
    var d := DecoderFor(values.value, sizes.value);
    return Some(d);
  }
}
