/**
 The wire format of the Protocol Buffers Encoding specification ("Message Structure",
 "Length-Delimited Records", "Groups"): tags, fields, how a byte string splits into fields
 under canonical and under permissive rules, and how fields are written.
 */
module ProtoFields {
  import opened Bytes
  import V = Varint

  const TWO_32: nat := 0x1_0000_0000

  type U32 = x: nat | x < TWO_32

  datatype WireType = Varint | Fixed64 | LengthDelimited | StartGroup | EndGroup | Fixed32
  {
    function Raw(): (r: nat)
      ensures r < 6
    {
      match this
      case Varint => 0
      case Fixed64 => 1
      case LengthDelimited => 2
      case StartGroup => 3
      case EndGroup => 4
      case Fixed32 => 5
    }
  }

  function FromRaw(value: nat): Option<WireType> {
    if value == 0 then Some(Varint)
    else if value == 1 then Some(Fixed64)
    else if value == 2 then Some(LengthDelimited)
    else if value == 3 then Some(StartGroup)
    else if value == 4 then Some(EndGroup)
    else if value == 5 then Some(Fixed32)
    else None
  }

  /** `(field_number << 3) | wire_type` in 32 bits: the top three bits of the number are lost. */
  function MakeTag(fieldNumber: U32, wireType: WireType): U32 {
    fieldNumber * 8 % TWO_32 + wireType.Raw()
  }

  function TagWireType(tag: U32): Option<WireType> { FromRaw(tag % 8) }

  function TagFieldNumber(tag: U32): U32 { tag / 8 }

  /** The largest number a field can have: what remains of 32 bits beside the wire type. */
  const MAX_FIELD_NUMBER: nat := 0x1FFF_FFFF

  /** A tag gives back its two parts exactly when the field number fits. */
  lemma TagRoundTrip(fieldNumber: U32, wireType: WireType)
    ensures TagWireType(MakeTag(fieldNumber, wireType)) == Some(wireType)
    ensures TagFieldNumber(MakeTag(fieldNumber, wireType)) == fieldNumber <==> fieldNumber <= MAX_FIELD_NUMBER
  {
  }

  /** Conversely a tag with a wire type is the tag of its parts. */
  lemma TagOfParts(tag: U32)
    requires TagWireType(tag).Some?
    ensures MakeTag(TagFieldNumber(tag), TagWireType(tag).value) == tag && TagFieldNumber(tag) <= MAX_FIELD_NUMBER
  {
  }

  datatype FieldValue =
    | VarintValue(varint: U64)
    | Fixed32Value(fixed32: U32)
    | Fixed64Value(fixed64: U64)
    | LengthDelimitedValue(bytes: Bytes)
    | StartGroupValue
    | EndGroupValue
  {
    function Type(): WireType {
      match this
      case VarintValue(_) => Varint
      case Fixed32Value(_) => Fixed32
      case Fixed64Value(_) => Fixed64
      case LengthDelimitedValue(_) => LengthDelimited
      case StartGroupValue => StartGroup
      case EndGroupValue => EndGroup
    }
  }

  datatype ProtoField = ProtoField(fieldNumber: U32, wireType: WireType, value: FieldValue)
  {
    /** A field the format can express. */
    predicate Valid() {
      && 0 < fieldNumber <= MAX_FIELD_NUMBER
      && wireType == value.Type()
      && (value.LengthDelimitedValue? ==> |value.bytes| < TWO_32)
    }
  }

  // ---------------------------------------------------------------- writing

  function SerializeValue(value: FieldValue): Bytes {
    match value
    case VarintValue(v) => V.Encode(v)
    case Fixed32Value(v) => LittleEndian(v, 4)
    case Fixed64Value(v) => LittleEndian(v, 8)
    case LengthDelimitedValue(b) => V.Encode(|b| % TWO_32) + b
    case StartGroupValue => []
    case EndGroupValue => []
  }

  function SerializeField(f: ProtoField): (r: Bytes)
    ensures |r| > 0
  {
    V.Encode(MakeTag(f.fieldNumber, f.wireType)) + SerializeValue(f.value)
  }

  function Serialize(fields: seq<ProtoField>): Bytes {
    if fields == [] then [] else SerializeField(fields[0]) + Serialize(fields[1..])
  }

  lemma {:induction false} SerializeConcat(a: seq<ProtoField>, b: seq<ProtoField>)
    ensures Serialize(a + b) == Serialize(a) + Serialize(b)
  {
    hide SerializeField;
    if a == [] {
      assert a + b == b;
    } else {
      SerializeConcat(a[1..], b);
      assert (a + b)[1..] == a[1..] + b;
    }
  }

  // ---------------------------------------------------------------- reading

  /** Which encodings of a number are accepted: only the shortest, or any of at most ten bytes. */
  datatype Rules = Canonical | Permissive

  function ReadVarint64(rules: Rules, data: Bytes, pos: nat): (r: Option<(nat, nat)>)
    ensures r.Some? ==> 0 < r.value.1 && pos + r.value.1 <= |data|
  {
    match rules
    case Canonical => V.ReadCanonical(data, pos, V.W64)
    case Permissive =>
      match V.Decode(data, pos, V.W64)
      case Success(p) => Some(p)
      case Failure(_) => None
  }

  /** A length, which the canonical rules limit to 32 bits. */
  function ReadLength(rules: Rules, data: Bytes, pos: nat): (r: Option<(nat, nat)>)
    ensures r.Some? ==> 0 < r.value.1 && pos + r.value.1 <= |data|
  {
    if rules.Canonical? then V.ReadCanonical(data, pos, V.W32) else ReadVarint64(Permissive, data, pos)
  }

  function ReadTag(rules: Rules, data: Bytes, pos: nat): (r: Option<(nat, nat)>)
    ensures r.Some? ==> 0 < r.value.1 && pos + r.value.1 <= |data|
  {
    var r := ReadLength(rules, data, pos);
    if r.Some? && r.value.0 >= TWO_32 then None else r
  }

  /** The value of the given wire type at `pos`, and where it ends. */
  function ReadValue(rules: Rules, data: Bytes, pos: nat, wireType: WireType): (r: Option<(FieldValue, nat)>)
    requires pos <= |data|
    ensures r.Some? ==> pos <= r.value.1 <= |data| && r.value.0.Type() == wireType
  {
    match wireType
    case Varint =>
      (match ReadVarint64(rules, data, pos)
       case Some((v, n)) => ReadFitsU64(rules, data, pos); Some((VarintValue(v), pos + n))
       case None => None)
    case Fixed32 =>
      if pos + 4 > |data| then None
      else FixedFits(data[pos..pos + 4]); Some((Fixed32Value(FromLittleEndian(data[pos..pos + 4])), pos + 4))
    case Fixed64 =>
      if pos + 8 > |data| then None
      else FixedFits(data[pos..pos + 8]); Some((Fixed64Value(FromLittleEndian(data[pos..pos + 8])), pos + 8))
    case LengthDelimited =>
      (match ReadLength(rules, data, pos)
       case Some((length, n)) =>
         if pos + n + length > |data| then None
         else Some((LengthDelimitedValue(data[pos + n..pos + n + length]), pos + n + length))
       case None => None)
    case StartGroup => Some((StartGroupValue, pos))
    case EndGroup => Some((EndGroupValue, pos))
  }

  lemma ReadFitsU64(rules: Rules, data: Bytes, pos: nat)
    requires ReadVarint64(rules, data, pos).Some?
    ensures ReadVarint64(rules, data, pos).value.0 < TWO_64
  {
    V.CapacityIsWidth();
    match rules
    case Canonical => V.CanonicalReadsOnlyEncodedFrom(data, pos, 0, V.W64);
    case Permissive => V.DecodeInRange(data, pos, 0, V.W64);
  }

  lemma FixedFits(s: Bytes)
    requires |s| == 4 || |s| == 8
    ensures FromLittleEndian(s) < if |s| == 4 then TWO_32 else TWO_64
  {
    if |s| == 8 {
      LE64Bound(s);
    } else {
      FromLittleEndianRoundTrip(s);
      assert Pow256(4) == TWO_32;
    }
  }

  /** The field at `pos`, and where it ends. */
  function ReadField(rules: Rules, data: Bytes, pos: nat): (r: Option<(ProtoField, nat)>)
    ensures r.Some? ==> pos < r.value.1 <= |data|
  {
    match ReadTag(rules, data, pos)
    case None => None
    case Some((tag, n)) =>
      var fieldNumber := TagFieldNumber(tag);
      if fieldNumber == 0 then None
      else
        match TagWireType(tag)
        case None => None
        case Some(wireType) =>
          match ReadValue(rules, data, pos + n, wireType)
          case None => None
          case Some((value, end)) => Some((ProtoField(fieldNumber, wireType, value), end))
  }

  /** All fields from `pos` to the end of the data, unless something there is not a field. */
  function ReadFields(rules: Rules, data: Bytes, pos: nat): Option<seq<ProtoField>>
    decreases |data| - pos
  {
    if pos >= |data| then Some([])
    else
      match ReadField(rules, data, pos)
      case None => None
      case Some((f, end)) =>
        match ReadFields(rules, data, end)
        case None => None
        case Some(fs) => Some([f] + fs)
  }

  // ---------------------------------------------------------------- groups

  /** Whether the group markers of the fields close the open groups, innermost last, and their own. */
  predicate ClosesGroups(fields: seq<ProtoField>, open: seq<U32>) {
    if fields == [] then open == []
    else
      var f := fields[0];
      match f.wireType
      case StartGroup => ClosesGroups(fields[1..], open + [f.fieldNumber])
      case EndGroup =>
        open != [] && open[|open| - 1] == f.fieldNumber && ClosesGroups(fields[1..], open[..|open| - 1])
      case _ => ClosesGroups(fields[1..], open)
  }

  /** A byte string is a message if it splits into fields whose group markers are well nested. */
  predicate IsMessage(rules: Rules, data: Bytes) {
    var fields := ReadFields(rules, data, 0);
    fields.Some? && ClosesGroups(fields.value, [])
  }

  // ---------------------------------------------------------------- reading what was written

  lemma SlicePart(data: Bytes, pos: nat, a: Bytes, b: Bytes)
    requires pos + |a + b| <= |data| && data[pos..pos + |a + b|] == a + b
    ensures data[pos..pos + |a|] == a && data[pos + |a|..pos + |a| + |b|] == b
  {
    assert data[pos..pos + |a|] == (a + b)[..|a|];
    assert data[pos + |a|..pos + |a| + |b|] == (a + b)[|a|..];
  }

  lemma EncodedReads(rules: Rules, data: Bytes, pos: nat, v: nat)
    requires v < TWO_64
    requires pos + |V.Encode(v)| <= |data| && data[pos..pos + |V.Encode(v)|] == V.Encode(v)
    ensures ReadVarint64(rules, data, pos) == Some((v, |V.Encode(v)|))
    ensures v < TWO_32 ==> ReadTag(rules, data, pos) == ReadLength(rules, data, pos) == Some((v, |V.Encode(v)|))
  {
    V.CapacityIsWidth();
    match rules {
      case Canonical =>
        V.CanonicalIsEncoderImage(data, pos, V.W64, v, |V.Encode(v)|);
        V.CanonicalIsEncoderImage(data, pos, V.W32, v, |V.Encode(v)|);
      case Permissive =>
        V.DecodeEncoded(data, pos, v);
    }
  }

  lemma SerializedValueReads(rules: Rules, data: Bytes, pos: nat, value: FieldValue)
    requires value.LengthDelimitedValue? ==> |value.bytes| < TWO_32
    requires pos + |SerializeValue(value)| <= |data|
    requires data[pos..pos + |SerializeValue(value)|] == SerializeValue(value)
    ensures ReadValue(rules, data, pos, value.Type()) == Some((value, pos + |SerializeValue(value)|))
  {
    hide ReadVarint64, ReadLength, LittleEndian, FromLittleEndian;
    match value {
      case VarintValue(v) => EncodedReads(rules, data, pos, v);
      case Fixed32Value(v) => assert Pow256(4) == TWO_32; LittleEndianRoundTrip(v, 4);
      case Fixed64Value(v) => LE64RoundTrip(v);
      case LengthDelimitedValue(b) =>
        SlicePart(data, pos, V.Encode(|b|), b);
        EncodedReads(rules, data, pos, |b|);
      case _ =>
    }
  }

  /** A written field is read back, wherever it stands and whichever the rules. */
  lemma SerializedFieldReads(rules: Rules, data: Bytes, pos: nat, f: ProtoField)
    requires f.Valid()
    requires pos + |SerializeField(f)| <= |data| && data[pos..pos + |SerializeField(f)|] == SerializeField(f)
    ensures ReadField(rules, data, pos) == Some((f, pos + |SerializeField(f)|))
  {
    hide SerializeValue, ReadValue, ReadTag;
    var tag := MakeTag(f.fieldNumber, f.wireType);
    SlicePart(data, pos, V.Encode(tag), SerializeValue(f.value));
    EncodedReads(rules, data, pos, tag);
    TagRoundTrip(f.fieldNumber, f.wireType);
    SerializedValueReads(rules, data, pos + |V.Encode(tag)|, f.value);
  }

  lemma CanonicalReadsEncoded(data: Bytes, pos: nat)
    ensures ReadVarint64(Canonical, data, pos).Some? ==>
      var (v, n) := ReadVarint64(Canonical, data, pos).value; n == |V.Encode(v)| && data[pos..pos + n] == V.Encode(v)
    ensures ReadLength(Canonical, data, pos).Some? ==>
      var (v, n) := ReadLength(Canonical, data, pos).value;
      v < TWO_32 && n == |V.Encode(v)| && data[pos..pos + n] == V.Encode(v)
  {
    V.CapacityIsWidth();
    if V.ReadCanonical(data, pos, V.W64).Some? {
      V.CanonicalReadsOnlyEncodedFrom(data, pos, 0, V.W64);
    }
    if V.ReadCanonical(data, pos, V.W32).Some? {
      V.CanonicalReadsOnlyEncodedFrom(data, pos, 0, V.W32);
    }
  }

  lemma ReadValueSerializes(data: Bytes, pos: nat, wireType: WireType)
    requires pos <= |data| && ReadValue(Canonical, data, pos, wireType).Some?
    ensures var (value, end) := ReadValue(Canonical, data, pos, wireType).value;
      && data[pos..end] == SerializeValue(value)
      && (value.LengthDelimitedValue? ==> |value.bytes| < TWO_32)
  {
    hide ReadVarint64, ReadLength, LittleEndian, FromLittleEndian, V.Encode, Pow256, ReadTag;
    match wireType {
      case Varint => CanonicalReadsEncoded(data, pos);
      case Fixed32 =>
        var s := data[pos..pos + 4];
        FromLittleEndianRoundTrip(s);
        assert ReadValue(Canonical, data, pos, Fixed32) == Some((Fixed32Value(FromLittleEndian(s)), pos + 4));
      case Fixed64 =>
        var s := data[pos..pos + 8];
        FromLittleEndianRoundTrip(s);
        assert ReadValue(Canonical, data, pos, Fixed64) == Some((Fixed64Value(FromLittleEndian(s)), pos + 8));
      case LengthDelimited => ReadBytesSerialize(data, pos);
      case _ =>
    }
  }

  lemma ReadBytesSerialize(data: Bytes, pos: nat)
    requires pos <= |data| && ReadValue(Canonical, data, pos, LengthDelimited).Some?
    ensures var (value, end) := ReadValue(Canonical, data, pos, LengthDelimited).value;
      |value.bytes| < TWO_32 && data[pos..end] == V.Encode(|value.bytes|) + value.bytes
  {
    hide ReadLength, V.Encode;
    CanonicalReadsEncoded(data, pos);
    var (length, n) := ReadLength(Canonical, data, pos).value;
    var value := ReadValue(Canonical, data, pos, LengthDelimited).value.0;
    assert value.bytes == data[pos + n..pos + n + length] && |value.bytes| == length;
    assert data[pos..pos + n + length] == data[pos..pos + n] + data[pos + n..pos + n + length];
  }

  /**
   Under the canonical rules what is read is a field the format can express, and writing it gives back the
   bytes read.
   */
  lemma ReadFieldSerializes(data: Bytes, pos: nat)
    requires ReadField(Canonical, data, pos).Some?
    ensures var (f, end) := ReadField(Canonical, data, pos).value;
      f.Valid() && data[pos..end] == SerializeField(f)
  {
    hide SerializeValue, ReadValue, ReadVarint64, ReadLength;
    var (tag, n) := ReadTag(Canonical, data, pos).value;
    var (f, end) := ReadField(Canonical, data, pos).value;
    CanonicalReadsEncoded(data, pos);
    TagOfParts(tag);
    ReadValueSerializes(data, pos + n, f.wireType);
    assert data[pos..end] == data[pos..pos + n] + data[pos + n..end];
  }

  predicate AllValid(fields: seq<ProtoField>) { forall f | f in fields :: f.Valid() }

  lemma {:induction false} SerializedFieldsRead(rules: Rules, data: Bytes, pos: nat, fields: seq<ProtoField>)
    requires pos <= |data| && AllValid(fields) && data[pos..] == Serialize(fields)
    ensures ReadFields(rules, data, pos) == Some(fields)
    decreases |fields|
  {
    hide SerializeField, ReadField;
    if fields != [] {
      var first := SerializeField(fields[0]);
      assert data[pos..] == first + Serialize(fields[1..]);
      assert data[pos..pos + |first|] == data[pos..][..|first|] == first;
      assert data[pos + |first|..] == data[pos..][|first|..] == Serialize(fields[1..]);
      SerializedFieldReads(rules, data, pos, fields[0]);
      SerializedFieldsRead(rules, data, pos + |first|, fields[1..]);
      assert [fields[0]] + fields[1..] == fields;
    }
  }

  lemma {:induction false} ReadFieldsSerialize(data: Bytes, pos: nat)
    requires pos <= |data| && ReadFields(Canonical, data, pos).Some?
    ensures var fields := ReadFields(Canonical, data, pos).value;
      AllValid(fields) && Serialize(fields) == data[pos..]
    decreases |data| - pos
  {
    hide SerializeField, ReadField;
    if pos < |data| {
      var (f, end) := ReadField(Canonical, data, pos).value;
      ReadFieldSerializes(data, pos);
      ReadFieldsSerialize(data, end);
      var rest := ReadFields(Canonical, data, end).value;
      assert ([f] + rest)[1..] == rest;
      assert data[pos..] == data[pos..end] + data[end..];
    }
  }

  /**
   The canonical reading of a byte string and the writing of fields are inverse to each
   other: the bytes split into these fields exactly when the fields can be expressed and
   writing them gives the bytes.
   */
  lemma ReadFieldsInvertsSerialize(data: Bytes, fields: seq<ProtoField>)
    ensures ReadFields(Canonical, data, 0) == Some(fields) <==> AllValid(fields) && data == Serialize(fields)
  {
    assert data[0..] == data;
    if ReadFields(Canonical, data, 0) == Some(fields) {
      ReadFieldsSerialize(data, 0);
    } else if AllValid(fields) && data == Serialize(fields) {
      SerializedFieldsRead(Canonical, data, 0, fields);
    }
  }

  // ---------------------------------------------------------------- the two sets of rules

  /**
   A permissively read field whose writing stands at the place it was read from is a field
   the format can express, and the canonical rules read it there as well.
   */
  lemma ReserializedFieldIsCanonical(data: Bytes, pos: nat)
    requires ReadField(Permissive, data, pos).Some?
    requires var f := ReadField(Permissive, data, pos).value.0;
      SerializeField(f) <= data[pos..]
    ensures var f := ReadField(Permissive, data, pos).value.0;
      f.Valid() && ReadField(Permissive, data, pos).value.1 == pos + |SerializeField(f)|
  {
    hide SerializeValue, ReadVarint64, ReadLength, LittleEndian, FromLittleEndian;
    var (tag, n) := ReadTag(Permissive, data, pos).value;
    var (f, end) := ReadField(Permissive, data, pos).value;
    TagOfParts(tag);
    var whole := SerializeField(f);
    assert data[pos..pos + |whole|] == data[pos..][..|whole|] == whole;
    SlicePart(data, pos, V.Encode(tag), SerializeValue(f.value));
    EncodedReads(Permissive, data, pos, tag);
    assert n == |V.Encode(tag)|;
    if f.wireType == LengthDelimited {
      var b := f.value.bytes;
      LengthIsExact(data, pos + n, b);
    }
    SerializedFieldReads(Permissive, data, pos, f);
  }

  lemma LengthIsExact(data: Bytes, pos: nat, b: Bytes)
    requires ReadLength(Permissive, data, pos).Some? && ReadLength(Permissive, data, pos).value.0 == |b|
    requires pos + |SerializeValue(LengthDelimitedValue(b))| <= |data|
    requires data[pos..pos + |SerializeValue(LengthDelimitedValue(b))|] == SerializeValue(LengthDelimitedValue(b))
    ensures |b| < TWO_32
  {
    SlicePart(data, pos, V.Encode(|b| % TWO_32), b);
    EncodedReads(Permissive, data, pos, |b| % TWO_32);
  }

  lemma {:induction false} ReserializedFieldsAreValid(data: Bytes, pos: nat)
    requires pos <= |data| && ReadFields(Permissive, data, pos).Some?
    requires Serialize(ReadFields(Permissive, data, pos).value) == data[pos..]
    ensures AllValid(ReadFields(Permissive, data, pos).value)
    decreases |data| - pos
  {
    hide SerializeField, ReadField;
    if pos < |data| {
      var (f, end) := ReadField(Permissive, data, pos).value;
      var rest := ReadFields(Permissive, data, end).value;
      assert ([f] + rest)[1..] == rest;
      assert data[pos..] == SerializeField(f) + Serialize(rest);
      ReserializedFieldIsCanonical(data, pos);
      assert data[end..] == data[pos..][|SerializeField(f)|..];
      ReserializedFieldsAreValid(data, end);
    }
  }

  /**
   The canonical rules accept exactly what the permissive ones read and writing gives back unchanged, and
   read the same fields there.
   */
  lemma CanonicalIffReserializes(data: Bytes, fields: seq<ProtoField>)
    ensures ReadFields(Canonical, data, 0) == Some(fields) <==>
      ReadFields(Permissive, data, 0) == Some(fields) && Serialize(fields) == data
  {
    assert data[0..] == data;
    ReadFieldsInvertsSerialize(data, fields);
    if AllValid(fields) && data == Serialize(fields) {
      SerializedFieldsRead(Permissive, data, 0, fields);
    } else if ReadFields(Permissive, data, 0) == Some(fields) && Serialize(fields) == data {
      ReserializedFieldsAreValid(data, 0);
    }
  }

  /**
   A canonical message is a message to permissive parsers too. The converse holds exactly
   for the byte strings that writing their fields reproduces: any other permissive message
   is one encoded non-canonically.
   */
  lemma CanonicalMessageIsPermissive(data: Bytes)
    ensures IsMessage(Canonical, data) <==>
      IsMessage(Permissive, data) && Serialize(ReadFields(Permissive, data, 0).value) == data
  {
    hide ReadFields, Serialize, ClosesGroups;
    var c, p := ReadFields(Canonical, data, 0), ReadFields(Permissive, data, 0);
    if c.Some? {
      CanonicalIffReserializes(data, c.value);
    }
    if p.Some? {
      CanonicalIffReserializes(data, p.value);
    }
  }
}
