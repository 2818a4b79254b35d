/**
 LEB128 varints ("Base 128 Varints" of the Protocol Buffers Encoding specification): the
 encoder, the permissive decoders and the canonical readers. Bytes are numbers, so
 `byte & 0x7f` is `byte % 128`, `v >> 7` is `v / 128`, and `result |= low7 << 7 * i`, whose
 operands share no bits, is an addition.
 */
module Varint {
  import opened Bytes

  datatype VarintError = UnexpectedEof | Overflow

  /** The integer type being read: its longest encoding and the largest last byte of that length. */
  datatype Width = Width(maxLen: nat, lastMax: nat)

  const W64 := Width(10, 1)
  const W32 := Width(5, 15)

  predicate IsWidth(w: Width) { w == W64 || w == W32 }

  /** How many values the bytes from index `i` on can still encode. */
  function Capacity(w: Width, i: nat): (r: nat)
    requires i < w.maxLen
    ensures r > 0
    decreases w.maxLen - i
  {
    if i == w.maxLen - 1 then w.lastMax + 1 else 128 * Capacity(w, i + 1)
  }

  lemma CapacityIsWidth()
    ensures Capacity(W64, 0) == TWO_64
    ensures Capacity(W32, 0) == 0x1_0000_0000
  {
    assert Capacity(W32, 2) == 16 * 128 * 128;
    assert Capacity(W64, 7) == 2 * 128 * 128;
    assert Capacity(W64, 5) == 2 * 128 * 128 * 128 * 128;
    assert Capacity(W64, 3) == 2 * 128 * 128 * 128 * 128 * 128 * 128;
    assert Capacity(W64, 1) == 2 * 128 * 128 * 128 * 128 * 128 * 128 * 128 * 128;
  }

  // ---------------------------------------------------------------- encoding

  function Encode(v: nat): (r: Bytes)
    ensures |r| > 0
  {
    if v < 128 then [v] else [v % 128 + 128] + Encode(v / 128)
  }

  method EncodeU64(value: U64) returns (buf: Bytes)
    ensures buf == Encode(value)
  {
    var v: nat := value;
    buf := [];
    while true
      invariant buf + Encode(v) == Encode(value)
      decreases v
    {
      var byte := v % 128;
      assert v >= 128 ==> buf + Encode(v) == buf + [byte + 128] + Encode(v / 128);
      v := v / 128;
      if v == 0 {
        buf := buf + [byte];
        return;
      }
      buf := buf + [byte + 128];
    }
  }

  function BitLength(v: nat): nat { if v == 0 then 0 else 1 + BitLength(v / 2) }

  function LengthVarintU64(v: nat): nat {
    if v == 0 then 1 else (BitLength(v) + 6) / 7
  }

  lemma BitLengthOfShift(v: nat)
    requires v >= 128
    ensures BitLength(v) == 7 + BitLength(v / 128)
  {
    var v2 := v / 4;
    var v4 := v2 / 4;
    var v6 := v4 / 4;
    HalveTwice(v);
    HalveTwice(v2);
    HalveTwice(v4);
    assert BitLength(v6) == 1 + BitLength(v6 / 2);
    hide BitLength;
    assert v6 / 2 == v / 128;
  }

  lemma HalveTwice(v: nat)
    requires v >= 4
    ensures BitLength(v) == 2 + BitLength(v / 4)
  {
    assert v / 2 / 2 == v / 4;
  }

  /** The length computed from the number of significant bits is the length of the encoding. */
  lemma {:induction false} LengthIsEncodedLength(v: nat)
    ensures LengthVarintU64(v) == |Encode(v)|
  {
    if v >= 128 {
      BitLengthOfShift(v);
      LengthIsEncodedLength(v / 128);
    } else {
      BitLengthBelow(v, 7);
    }
  }

  lemma {:induction false} BitLengthBelow(v: nat, n: nat)
    requires v < Pow2(n)
    ensures BitLength(v) <= n
  {
    if v > 0 {
      BitLengthBelow(v / 2, n - 1);
    }
  }

  function Pow2(n: nat): nat { if n == 0 then 1 else 2 * Pow2(n - 1) }

  // ---------------------------------------------------------------- decoding

  /** The value of the varint whose byte `i` is at `data[pos + i]`, counted from that byte, and the total length. */
  function DecodeFrom(data: Bytes, pos: nat, i: nat, w: Width): (r: Result<(nat, nat), VarintError>)
    ensures r.Success? ==> i < r.value.1 && pos + r.value.1 <= |data|
    decreases |data| - pos - i
  {
    if pos + i >= |data| then Failure(UnexpectedEof)
    else
      var byte := data[pos + i];
      if i == w.maxLen || (i == w.maxLen - 1 && byte % 128 > w.lastMax) then Failure(Overflow)
      else if byte < 128 then Success((byte, i + 1))
      else
        match DecodeFrom(data, pos, i + 1, w)
        case Success((v, n)) => Success((byte % 128 + 128 * v, n))
        case Failure(e) => Failure(e)
  }

  function Decode(data: Bytes, pos: nat, w: Width): (r: Result<(nat, nat), VarintError>)
    ensures r.Success? ==> 0 < r.value.1 && pos + r.value.1 <= |data|
  {
    DecodeFrom(data, pos, 0, w)
  }

  function Pow128(i: nat): nat { if i == 0 then 1 else 128 * Pow128(i - 1) }

  /** What a loop that has accumulated `acc` from the first `i` bytes makes of the rest. */
  function Accumulate(acc: nat, i: nat, r: Result<(nat, nat), VarintError>): Result<(nat, nat), VarintError> {
    match r
    case Success((v, n)) => Success((acc + Pow128(i) * v, n))
    case Failure(e) => Failure(e)
  }

  lemma AccumulateStep(acc: nat, i: nat, low: nat, v: nat)
    ensures acc + Pow128(i) * (low + 128 * v) == (acc + Pow128(i) * low) + Pow128(i + 1) * v
  {
    assert Pow128(i + 1) == 128 * Pow128(i);
    assert Pow128(i) * (low + 128 * v) == Pow128(i) * low + Pow128(i) * 128 * v;
  }

  lemma DecodeStep(data: Bytes, pos: nat, i: nat, w: Width, acc: nat)
    ensures pos + i >= |data| ==> Accumulate(acc, i, DecodeFrom(data, pos, i, w)) == Failure(UnexpectedEof)
    ensures pos + i < |data| ==>
      var byte := data[pos + i];
      var whole := Accumulate(acc, i, DecodeFrom(data, pos, i, w));
      if i == w.maxLen || (i == w.maxLen - 1 && byte % 128 > w.lastMax) then whole == Failure(Overflow)
      else if byte < 128 then whole == Success((acc + Pow128(i) * byte, i + 1))
      else whole == Accumulate(acc + Pow128(i) * (byte % 128), i + 1, DecodeFrom(data, pos, i + 1, w))
  {
    if pos + i < |data| && data[pos + i] >= 128 && DecodeFrom(data, pos, i + 1, w).Success? {
      AccumulateStep(acc, i, data[pos + i] % 128, DecodeFrom(data, pos, i + 1, w).value.0);
    }
  }

  lemma DecodeFirst(data: Bytes, pos: nat, w: Width)
    ensures Accumulate(0, 0, DecodeFrom(data, pos, 0, w)) == Decode(data, pos, w)
  {
  }

  /** `decode_u64` and `decode_u32`, which differ only in their two bounds. */
  method DecodeVarint(data: Bytes, pos: nat, w: Width) returns (r: Result<(nat, nat), VarintError>)
    requires IsWidth(w)
    ensures r == Decode(data, pos, w)
  {
    hide Accumulate;
    var result: nat, scale: nat, i: nat := 0, 1, 0;
    DecodeFirst(data, pos, w);
    while pos + i < |data|
      invariant scale == Pow128(i)
      invariant Accumulate(result, i, DecodeFrom(data, pos, i, w)) == Decode(data, pos, w)
      decreases |data| - pos - i
    {
      DecodeStep(data, pos, i, w, result);
      var byte := data[pos + i];
      if i == w.maxLen {
        return Failure(Overflow);
      }
      var low7 := byte % 128;
      if i == w.maxLen - 1 && low7 > w.lastMax {
        return Failure(Overflow);
      }
      result := result + scale * low7;
      if byte < 128 {
        return Success((result, i + 1));
      }
      scale := scale * 128;
      i := i + 1;
    }
    DecodeStep(data, pos, i, w, result);
    return Failure(UnexpectedEof);
  }

  /** Taking off the lowest seven bits leaves what the next byte on can hold, and the other way round. */
  lemma CapacityStep(w: Width, i: nat, v: nat)
    requires IsWidth(w) && i < w.maxLen
    ensures i == w.maxLen - 1 ==> Capacity(w, i) == w.lastMax + 1 <= 16
    ensures i < w.maxLen - 1 ==> Capacity(w, i) == 128 * Capacity(w, i + 1) >= 128
    ensures v >= 128 && v < Capacity(w, i) ==> i + 1 < w.maxLen && v / 128 < Capacity(w, i + 1)
  {
  }

  /** The first byte of an encoding, and where the encoding of the higher digits stands. */
  lemma EncodedParts(data: Bytes, at: nat, v: nat)
    requires at + |Encode(v)| <= |data| && data[at..at + |Encode(v)|] == Encode(v)
    ensures data[at] == if v < 128 then v else v % 128 + 128
    ensures v < 128 ==> |Encode(v)| == 1
    ensures v >= 128 ==>
      var n := |Encode(v / 128)|;
      |Encode(v)| == 1 + n && data[at + 1..at + 1 + n] == Encode(v / 128)
  {
    assert data[at] == Encode(v)[0];
    if v >= 128 {
      assert Encode(v)[1..] == Encode(v / 128);
      assert data[at + 1..at + |Encode(v)|] == data[at..at + |Encode(v)|][1..];
    }
  }

  /** Decoding an encoded value, wherever it stands, returns the value and the length of its encoding. */
  lemma {:induction false} DecodeEncodedFrom(data: Bytes, pos: nat, i: nat, w: Width, v: nat)
    requires IsWidth(w) && i < w.maxLen && v < Capacity(w, i)
    requires pos + i + |Encode(v)| <= |data|
    requires data[pos + i..pos + i + |Encode(v)|] == Encode(v)
    ensures DecodeFrom(data, pos, i, w) == Success((v, i + |Encode(v)|))
    decreases v
  {
    hide Encode, Capacity;
    EncodedParts(data, pos + i, v);
    CapacityStep(w, i, v);
    if v >= 128 {
      DecodeEncodedFrom(data, pos, i + 1, w, v / 128);
    }
  }

  lemma DecodeEncoded(data: Bytes, pos: nat, v: nat)
    requires v < TWO_64
    requires pos + |Encode(v)| <= |data| && data[pos..pos + |Encode(v)|] == Encode(v)
    ensures Decode(data, pos, W64) == Success((v, |Encode(v)|))
  {
    CapacityIsWidth();
    DecodeEncodedFrom(data, pos, 0, W64, v);
  }

  /** A decoded value fits the width. */
  lemma {:induction false} DecodeInRange(data: Bytes, pos: nat, i: nat, w: Width)
    requires IsWidth(w) && i < w.maxLen
    ensures var r := DecodeFrom(data, pos, i, w);
      r.Success? ==> r.value.0 < Capacity(w, i) && r.value.1 <= w.maxLen
    decreases w.maxLen - i
  {
    if pos + i < |data| && data[pos + i] >= 128 {
      if i < w.maxLen - 1 {
        DecodeInRange(data, pos, i + 1, w);
      } else {
        assert DecodeFrom(data, pos, i + 1, w).Failure?;
      }
    }
  }

  lemma {:induction false} EncodedLengthBound(v: nat, w: Width, i: nat)
    requires IsWidth(w) && i < w.maxLen && v < Capacity(w, i)
    ensures |Encode(v)| <= w.maxLen - i
    decreases v
  {
    if v >= 128 {
      EncodedLengthBound(v / 128, w, i + 1);
    }
  }

  // ---------------------------------------------------------------- canonical reading

  /** As `DecodeFrom`, but an encoding of several bytes must not end in a zero byte. */
  function ReadCanonicalFrom(data: Bytes, pos: nat, i: nat, w: Width): (r: Option<(nat, nat)>)
    ensures r.Some? ==> i < r.value.1 && pos + r.value.1 <= |data|
    decreases |data| - pos - i
  {
    if pos + i >= |data| || i >= w.maxLen then None
    else
      var byte := data[pos + i];
      if i == w.maxLen - 1 && byte % 128 > w.lastMax then None
      else if byte < 128 then (if i > 0 && byte == 0 then None else Some((byte, i + 1)))
      else
        match ReadCanonicalFrom(data, pos, i + 1, w)
        case Some((v, n)) => Some((byte % 128 + 128 * v, n))
        case None => None
  }

  function ReadCanonical(data: Bytes, pos: nat, w: Width): (r: Option<(nat, nat)>)
    ensures r.Some? ==> 0 < r.value.1 && pos + r.value.1 <= |data|
  {
    ReadCanonicalFrom(data, pos, 0, w)
  }

  function AccumulateCanonical(acc: nat, i: nat, r: Option<(nat, nat)>): Option<(nat, nat)> {
    match r
    case Some((v, n)) => Some((acc + Pow128(i) * v, n))
    case None => None
  }

  lemma ReadFirst(data: Bytes, pos: nat, w: Width)
    ensures AccumulateCanonical(0, 0, ReadCanonicalFrom(data, pos, 0, w)) == ReadCanonical(data, pos, w)
  {
  }

  lemma CanonicalStep(data: Bytes, pos: nat, i: nat, w: Width, acc: nat)
    requires i < w.maxLen
    ensures pos + i >= |data| ==> AccumulateCanonical(acc, i, ReadCanonicalFrom(data, pos, i, w)) == None
    ensures pos + i < |data| ==>
      var byte := data[pos + i];
      var whole := AccumulateCanonical(acc, i, ReadCanonicalFrom(data, pos, i, w));
      if i == w.maxLen - 1 && byte % 128 > w.lastMax then whole == None
      else if byte < 128 then
        whole == if i > 0 && byte == 0 then None else Some((acc + Pow128(i) * byte, i + 1))
      else
        whole == AccumulateCanonical(acc + Pow128(i) * (byte % 128), i + 1, ReadCanonicalFrom(data, pos, i + 1, w))
  {
    if pos + i < |data| && data[pos + i] >= 128 && ReadCanonicalFrom(data, pos, i + 1, w).Some? {
      AccumulateStep(acc, i, data[pos + i] % 128, ReadCanonicalFrom(data, pos, i + 1, w).value.0);
    }
  }

  lemma ReadPastEnd(data: Bytes, pos: nat, i: nat, w: Width, acc: nat)
    requires i >= w.maxLen
    ensures AccumulateCanonical(acc, i, ReadCanonicalFrom(data, pos, i, w)) == None
  {
  }

  /** `read_canonical_varint32` and `read_canonical_varint64`. */
  method ReadCanonicalVarint(data: Bytes, pos: nat, w: Width) returns (r: Option<(nat, nat)>)
    requires IsWidth(w)
    ensures r == ReadCanonical(data, pos, w)
  {
    hide AccumulateCanonical;
    var result: nat, scale: nat, i: nat := 0, 1, 0;
    ReadFirst(data, pos, w);
    while i < w.maxLen
      invariant i <= w.maxLen && scale == Pow128(i)
      invariant AccumulateCanonical(result, i, ReadCanonicalFrom(data, pos, i, w)) == ReadCanonical(data, pos, w)
    {
      CanonicalStep(data, pos, i, w, result);
      if pos + i >= |data| {
        return None;
      }
      var byte := data[pos + i];
      var low7 := byte % 128;
      if i == w.maxLen - 1 && low7 > w.lastMax {
        return None;
      }
      result := result + scale * low7;
      if byte < 128 {
        if i > 0 && byte == 0 {
          return None;
        }
        return Some((result, i + 1));
      }
      scale := scale * 128;
      i := i + 1;
    }
    ReadPastEnd(data, pos, i, w, result);
    return None;
  }

  /** `skip_canonical_varint64`: the length the reader would consume, without the value. */
  method SkipCanonicalVarint64(data: Bytes, pos: nat) returns (r: Option<nat>)
    ensures r == match ReadCanonical(data, pos, W64) case Some((v, n)) => Some(n) case None => None
  {
    var i := 0;
    while i < 10
      invariant i <= 10
      invariant ReadCanonical(data, pos, W64).Some? <==> ReadCanonicalFrom(data, pos, i, W64).Some?
      invariant ReadCanonical(data, pos, W64).Some? ==>
        ReadCanonical(data, pos, W64).value.1 == ReadCanonicalFrom(data, pos, i, W64).value.1
    {
      if pos + i >= |data| {
        return None;
      }
      var byte := data[pos + i];
      if i == 9 && byte % 128 > 1 {
        return None;
      }
      if byte < 128 {
        if i > 0 && byte == 0 {
          return None;
        }
        return Some(i + 1);
      }
      i := i + 1;
    }
    return None;
  }

  /** Canonical readers accept every encoding of a value that fits. */
  lemma {:induction false} CanonicalReadsEncodedFrom(data: Bytes, pos: nat, i: nat, w: Width, v: nat)
    requires IsWidth(w) && i < w.maxLen && v < Capacity(w, i) && (i > 0 ==> v > 0)
    requires pos + i + |Encode(v)| <= |data|
    requires data[pos + i..pos + i + |Encode(v)|] == Encode(v)
    ensures ReadCanonicalFrom(data, pos, i, w) == Some((v, i + |Encode(v)|))
    decreases v
  {
    hide Encode, Capacity;
    EncodedParts(data, pos + i, v);
    CapacityStep(w, i, v);
    if v >= 128 {
      CanonicalReadsEncodedFrom(data, pos, i + 1, w, v / 128);
    }
  }

  lemma EncodeLowest(byte: Byte, v: nat)
    ensures byte < 128 ==> Encode(byte) == [byte]
    ensures byte >= 128 && v > 0 ==> Encode(byte % 128 + 128 * v) == [byte] + Encode(v)
  {
  }

  /** What a successful canonical reading says about its first byte and the rest. */
  lemma CanonicalFirstByte(data: Bytes, pos: nat, i: nat, w: Width)
    requires i < w.maxLen && ReadCanonicalFrom(data, pos, i, w).Some?
    ensures pos + i < |data|
    ensures i == w.maxLen - 1 ==> data[pos + i] <= w.lastMax || data[pos + i] >= 128
    ensures data[pos + i] < 128 ==>
      ReadCanonicalFrom(data, pos, i, w) == Some((data[pos + i], i + 1)) && (i > 0 ==> data[pos + i] > 0)
    ensures data[pos + i] >= 128 ==> i + 1 < w.maxLen && ReadCanonicalFrom(data, pos, i + 1, w).Some?
    ensures data[pos + i] >= 128 ==>
      var (v, n) := ReadCanonicalFrom(data, pos, i + 1, w).value;
      ReadCanonicalFrom(data, pos, i, w) == Some((data[pos + i] % 128 + 128 * v, n))
  {
  }

  /** Canonical readers accept nothing but encodings of values that fit. */
  lemma {:induction false} CanonicalReadsOnlyEncodedFrom(data: Bytes, pos: nat, i: nat, w: Width)
    requires IsWidth(w) && i < w.maxLen
    requires ReadCanonicalFrom(data, pos, i, w).Some?
    ensures var (v, n) := ReadCanonicalFrom(data, pos, i, w).value;
      && v < Capacity(w, i) && (i > 0 ==> v > 0)
      && n == i + |Encode(v)| && data[pos + i..pos + n] == Encode(v)
    decreases w.maxLen - i
  {
    hide Encode, Capacity, ReadCanonicalFrom;
    CanonicalFirstByte(data, pos, i, w);
    CapacityStep(w, i, 0);
    var byte := data[pos + i];
    if byte >= 128 {
      CanonicalReadsOnlyEncodedFrom(data, pos, i + 1, w);
      var (v, n) := ReadCanonicalFrom(data, pos, i + 1, w).value;
      EncodeLowest(byte, v);
      assert data[pos + i..pos + n] == [byte] + data[pos + i + 1..pos + n];
    } else {
      EncodeLowest(byte, 0);
    }
  }

  /** Canonical readers accept exactly the image of the encoder. */
  lemma CanonicalIsEncoderImage(data: Bytes, pos: nat, w: Width, v: nat, n: nat)
    requires IsWidth(w)
    ensures ReadCanonical(data, pos, w) == Some((v, n)) <==>
      v < Capacity(w, 0) && n == |Encode(v)| && pos + n <= |data| && data[pos..pos + n] == Encode(v)
  {
    if ReadCanonical(data, pos, w) == Some((v, n)) {
      CanonicalReadsOnlyEncodedFrom(data, pos, 0, w);
    } else if v < Capacity(w, 0) && n == |Encode(v)| && pos + n <= |data| && data[pos..pos + n] == Encode(v) {
      CanonicalReadsEncodedFrom(data, pos, 0, w, v);
    }
  }

  /** What a canonical reader accepts, the permissive 64-bit decoder reads alike. */
  lemma CanonicalIsDecodable(data: Bytes, pos: nat, w: Width)
    requires IsWidth(w)
    requires ReadCanonical(data, pos, w).Some?
    ensures Decode(data, pos, W64) == Success(ReadCanonical(data, pos, w).value)
    ensures ReadCanonical(data, pos, w).value.0 < Capacity(w, 0)
  {
    CapacityIsWidth();
    CanonicalReadsOnlyEncodedFrom(data, pos, 0, w);
    DecodeEncoded(data, pos, ReadCanonical(data, pos, w).value.0);
  }
}
