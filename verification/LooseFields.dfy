/**
 Every way of writing the fields of a message: each tag, varint and length in any of its
 encodings. The permissive rules accept exactly these.
 */
module LooseFields {
  import opened Bytes
  import opened ProtoFields
  import opened LooseVarint
  import V = Varint

  /** How many bytes the tag of a field takes, and the number behind it if there is one. */
  datatype Widths = Widths(tag: nat, number: nat)

  /** A field permissive parsers can meet: only its length may exceed what the canonical rules allow. */
  predicate Loose(f: ProtoField) {
    && 0 < f.fieldNumber <= MAX_FIELD_NUMBER && f.wireType == f.value.Type()
    && (f.value.LengthDelimitedValue? ==> |f.value.bytes| < TWO_64)
  }

  /** The number that stands between the tag and the rest of the value. */
  function NumberOf(value: FieldValue): Option<nat> {
    match value
    case VarintValue(v) => Some(v)
    case LengthDelimitedValue(b) => Some(|b|)
    case _ => None
  }

  /** What follows that number. */
  function RestOf(value: FieldValue): Bytes {
    match value
    case VarintValue(_) => []
    case LengthDelimitedValue(b) => b
    case _ => SerializeValue(value)
  }

  /** A width that holds the number and that a decoder of 64-bit numbers takes. */
  predicate Holds(v: nat, width: nat) { |V.Encode(v)| <= width <= 10 }

  predicate Fits(f: ProtoField, w: Widths) {
    && Holds(MakeTag(f.fieldNumber, f.wireType), w.tag)
    && (NumberOf(f.value).Some? ==> Holds(NumberOf(f.value).value, w.number))
  }

  function SpellValue(value: FieldValue, width: nat): Bytes {
    (if NumberOf(value).Some? && width > 0 then Padded(NumberOf(value).value, width) else []) + RestOf(value)
  }

  /** A field with its tag and its number in these widths. */
  function Spell(f: ProtoField, w: Widths): (r: Bytes)
    ensures w.tag > 0 ==> |r| > 0
  {
    (if w.tag > 0 then Padded(MakeTag(f.fieldNumber, f.wireType), w.tag) else []) + SpellValue(f.value, w.number)
  }

  function SpellAll(fields: seq<ProtoField>, ws: seq<Widths>): Bytes
    requires |ws| == |fields|
  {
    if fields == [] then [] else Spell(fields[0], ws[0]) + SpellAll(fields[1..], ws[1..])
  }

  predicate AllFit(fields: seq<ProtoField>, ws: seq<Widths>)
    requires |ws| == |fields|
  {
    forall i | 0 <= i < |fields| :: Loose(fields[i]) && Fits(fields[i], ws[i])
  }

  // ---------------------------------------------------------------- numbers

  /** An encoding of `v` in at most ten bytes stands at `pos` and is `n` bytes long. */
  predicate NumberAt(data: Bytes, pos: nat, v: nat, n: nat) {
    pos + n <= |data| && Holds(v, n) && n > 0 && data[pos..pos + n] == Padded(v, n)
  }

  /**
   The permissive readers of varints, lengths and tags accept every encoding of a number that
   fits, wherever it stands, and nothing else.
   */
  lemma PermissiveNumbers(data: Bytes, pos: nat, v: nat, n: nat)
    ensures ReadVarint64(Permissive, data, pos) == Some((v, n)) <==> v < TWO_64 && NumberAt(data, pos, v, n)
    ensures ReadLength(Permissive, data, pos) == Some((v, n)) <==> v < TWO_64 && NumberAt(data, pos, v, n)
    ensures ReadTag(Permissive, data, pos) == Some((v, n)) <==> v < TWO_32 && NumberAt(data, pos, v, n)
  {
    hide V.Encode, V.Decode, Encodes, Padded;
    V.CapacityIsWidth();
    DecodesExactlyEncodings(data, pos, V.W64, v, n);
    if pos + n <= |data| {
      EncodingIsPadded(data[pos..pos + n], v);
    }
  }

  // ---------------------------------------------------------------- values and fields

  /** The value stands at `pos` in that width and ends at `end`. */
  predicate ValueAt(data: Bytes, pos: nat, value: FieldValue, width: nat, end: nat) {
    && pos <= end <= |data| && data[pos..end] == SpellValue(value, width)
    && (NumberOf(value).Some? ==> NumberOf(value).value < TWO_64 && Holds(NumberOf(value).value, width))
  }

  lemma SpelledValueReads(data: Bytes, pos: nat, value: FieldValue, width: nat, end: nat)
    requires ValueAt(data, pos, value, width, end)
    ensures ReadValue(Permissive, data, pos, value.Type()) == Some((value, end))
  {
    hide ReadVarint64, ReadLength, LittleEndian, FromLittleEndian, V.Encode, Padded;
    if NumberOf(value).Some? {
      EncodedIsNotEmpty(NumberOf(value).value, width);
      SlicePart(data, pos, Padded(NumberOf(value).value, width), RestOf(value));
      PermissiveNumbers(data, pos, NumberOf(value).value, width);
    } else {
      assert SpellValue(value, width) == SerializeValue(value);
      SerializedValueReads(Permissive, data, pos, value);
    }
  }

  lemma EncodedIsNotEmpty(v: nat, width: nat)
    requires Holds(v, width)
    ensures width > 0
  {
  }

  lemma ReadValueIsSpelled(data: Bytes, pos: nat, wireType: WireType) returns (width: nat)
    requires pos <= |data| && ReadValue(Permissive, data, pos, wireType).Some?
    ensures var (value, end) := ReadValue(Permissive, data, pos, wireType).value;
      ValueAt(data, pos, value, width, end)
  {
    hide ReadVarint64, ReadLength, LittleEndian, FromLittleEndian, V.Encode, Padded, Pow256, ReadTag;
    width := 0;
    match wireType {
      case Varint =>
        var (v, n) := ReadVarint64(Permissive, data, pos).value;
        PermissiveNumbers(data, pos, v, n);
        width := n;
        assert SpellValue(VarintValue(v), n) == Padded(v, n);
      case LengthDelimited =>
        var (v, n) := ReadLength(Permissive, data, pos).value;
        PermissiveNumbers(data, pos, v, n);
        width := n;
        assert data[pos..pos + n + v] == data[pos..pos + n] + data[pos + n..pos + n + v];
      case Fixed32 =>
        FixedIsSpelled(data, pos, 4);
      case Fixed64 =>
        FixedIsSpelled(data, pos, 8);
      case _ =>
    }
  }

  lemma FixedIsSpelled(data: Bytes, pos: nat, n: nat)
    requires pos + n <= |data|
    ensures LittleEndian(FromLittleEndian(data[pos..pos + n]), n) == data[pos..pos + n]
  {
    FromLittleEndianRoundTrip(data[pos..pos + n]);
  }

  /** The field stands at `pos` in these widths and ends at `end`. */
  predicate FieldAt(data: Bytes, pos: nat, f: ProtoField, w: Widths, end: nat) {
    Loose(f) && Fits(f, w) && pos <= end <= |data| && data[pos..end] == Spell(f, w)
  }

  lemma SpelledFieldReads(data: Bytes, pos: nat, f: ProtoField, w: Widths, end: nat)
    requires FieldAt(data, pos, f, w, end)
    ensures ReadField(Permissive, data, pos) == Some((f, end))
  {
    hide V.Encode, Padded, SpellValue, ReadTag, ReadValue;
    var tag := MakeTag(f.fieldNumber, f.wireType);
    EncodedIsNotEmpty(tag, w.tag);
    SlicePart(data, pos, Padded(tag, w.tag), SpellValue(f.value, w.number));
    PermissiveNumbers(data, pos, tag, w.tag);
    TagRoundTrip(f.fieldNumber, f.wireType);
    SpelledValueReads(data, pos + w.tag, f.value, w.number, end);
  }

  lemma ReadFieldIsSpelled(data: Bytes, pos: nat) returns (w: Widths)
    requires ReadField(Permissive, data, pos).Some?
    ensures var (f, end) := ReadField(Permissive, data, pos).value; FieldAt(data, pos, f, w, end)
  {
    hide V.Encode, Padded, SpellValue, ReadTag, ReadValue;
    var (tag, n) := ReadTag(Permissive, data, pos).value;
    var (f, end) := ReadField(Permissive, data, pos).value;
    PermissiveNumbers(data, pos, tag, n);
    TagOfParts(tag);
    var width := ReadValueIsSpelled(data, pos + n, f.wireType);
    w := Widths(n, width);
    assert data[pos..end] == data[pos..pos + n] + data[pos + n..end];
  }

  // ---------------------------------------------------------------- whole messages

  lemma {:induction false} SpelledFieldsRead(data: Bytes, pos: nat, fields: seq<ProtoField>, ws: seq<Widths>)
    requires pos <= |data| && |ws| == |fields| && AllFit(fields, ws) && data[pos..] == SpellAll(fields, ws)
    ensures ReadFields(Permissive, data, pos) == Some(fields)
    decreases |fields|
  {
    hide Spell, ReadField, Loose, Fits;
    if fields != [] {
      var first, rest := Spell(fields[0], ws[0]), SpellAll(fields[1..], ws[1..]);
      var end := pos + |first|;
      assert data[pos..] == first + rest;
      assert data[pos..end] == data[pos..][..|first|] == first;
      assert data[end..] == data[pos..][|first|..] == rest;
      SpelledFieldReads(data, pos, fields[0], ws[0], end);
      assert ReadField(Permissive, data, pos) == Some((fields[0], end));
      SpelledFieldsRead(data, end, fields[1..], ws[1..]);
      assert [fields[0]] + fields[1..] == fields;
    }
  }

  lemma {:induction false} ReadFieldsAreSpelled(data: Bytes, pos: nat) returns (ws: seq<Widths>)
    requires pos <= |data| && ReadFields(Permissive, data, pos).Some?
    ensures var fields := ReadFields(Permissive, data, pos).value;
      |ws| == |fields| && AllFit(fields, ws) && data[pos..] == SpellAll(fields, ws)
    decreases |data| - pos
  {
    hide Spell, ReadField, Loose, Fits;
    ws := [];
    if pos < |data| {
      var (f, end) := ReadField(Permissive, data, pos).value;
      var w := ReadFieldIsSpelled(data, pos);
      var rest := ReadFields(Permissive, data, end).value;
      var more := ReadFieldsAreSpelled(data, end);
      ws := [w] + more;
      var fields := [f] + rest;
      assert fields[1..] == rest && ws[1..] == more;
      assert data[pos..] == data[pos..end] + data[end..];
    }
  }

  /**
   The permissive rules split a byte string into these fields exactly if it is the fields
   written one after the other, each tag, varint and length in some encoding of at most ten bytes.
   */
  lemma PermissiveReadsExactlySpellings(data: Bytes, fields: seq<ProtoField>)
    ensures ReadFields(Permissive, data, 0) == Some(fields) <==>
      exists ws :: |ws| == |fields| && AllFit(fields, ws) && data == SpellAll(fields, ws)
  {
    hide AllFit, SpellAll, ReadFields;
    assert data[0..] == data;
    if ReadFields(Permissive, data, 0) == Some(fields) {
      var ws := ReadFieldsAreSpelled(data, 0);
    }
    forall ws | |ws| == |fields| && AllFit(fields, ws) && data == SpellAll(fields, ws)
      ensures ReadFields(Permissive, data, 0) == Some(fields)
    {
      SpelledFieldsRead(data, 0, fields, ws);
    }
  }

  // ---------------------------------------------------------------- overlong numbers

  /** Some number is longer than it need be. */
  predicate Overlong(f: ProtoField, w: Widths) {
    || |V.Encode(MakeTag(f.fieldNumber, f.wireType))| < w.tag
    || (NumberOf(f.value).Some? && |V.Encode(NumberOf(f.value).value)| < w.number)
  }

  lemma SpellingLength(f: ProtoField, w: Widths)
    requires f.Valid() && Fits(f, w)
    ensures |SerializeField(f)| <= |Spell(f, w)|
    ensures |SerializeField(f)| == |Spell(f, w)| <==> !Overlong(f, w)
  {
    hide V.Encode, Padded;
    EncodedIsNotEmpty(MakeTag(f.fieldNumber, f.wireType), w.tag);
    if NumberOf(f.value).Some? {
      EncodedIsNotEmpty(NumberOf(f.value).value, w.number);
    }
  }

  lemma {:induction false} SpellingsLength(fields: seq<ProtoField>, ws: seq<Widths>)
    requires AllValid(fields) && |ws| == |fields| && AllFit(fields, ws)
    ensures |Serialize(fields)| <= |SpellAll(fields, ws)|
    ensures |Serialize(fields)| == |SpellAll(fields, ws)| <==>
      forall i | 0 <= i < |fields| :: !Overlong(fields[i], ws[i])
    decreases |fields|
  {
    hide Spell, SerializeField, Loose, Fits, Overlong;
    if fields != [] {
      assert fields[0] in fields;
      SpellingLength(fields[0], ws[0]);
      SpellingsLength(fields[1..], ws[1..]);
      var fs, vs := fields[1..], ws[1..];
      assert forall i | 0 < i < |fields| :: fields[i] == fs[i - 1] && ws[i] == vs[i - 1];
    }
  }

  /**
   A message written with any number longer than it need be is still a message to permissive
   parsers, with the same fields, and not a canonical one. Written with every number as short
   as possible it is canonical.
   */
  lemma OverlongIsPermissiveOnly(fields: seq<ProtoField>, ws: seq<Widths>)
    requires AllValid(fields) && ClosesGroups(fields, []) && |ws| == |fields| && AllFit(fields, ws)
    ensures var data := SpellAll(fields, ws);
      && IsMessage(Permissive, data) && ReadFields(Permissive, data, 0) == Some(fields)
      && (IsMessage(Canonical, data) <==> forall i | 0 <= i < |fields| :: !Overlong(fields[i], ws[i]))
  {
    hide AllFit, SpellAll, ReadFields, Serialize, Overlong, AllValid, ClosesGroups;
    var data := SpellAll(fields, ws);
    PermissiveReadsExactlySpellings(data, fields);
    SpellingsLength(fields, ws);
    CanonicalMessageIsPermissive(data);
    if |Serialize(fields)| == |data| {
      ShortestIsSerialized(fields, ws);
    }
  }

  lemma {:induction false} ShortestIsSerialized(fields: seq<ProtoField>, ws: seq<Widths>)
    requires AllValid(fields) && |ws| == |fields| && AllFit(fields, ws) && |Serialize(fields)| == |SpellAll(fields, ws)|
    ensures Serialize(fields) == SpellAll(fields, ws)
    decreases |fields|
  {
    hide Spell, SerializeField, Loose, Fits, Overlong;
    if fields != [] {
      assert fields[0] in fields;
      SpellingLength(fields[0], ws[0]);
      SpellingsLength(fields[1..], ws[1..]);
      ShortestFieldIsSerialized(fields[0], ws[0]);
      ShortestIsSerialized(fields[1..], ws[1..]);
    }
  }

  lemma ShortestFieldIsSerialized(f: ProtoField, w: Widths)
    requires f.Valid() && Fits(f, w) && |SerializeField(f)| == |Spell(f, w)|
    ensures SerializeField(f) == Spell(f, w)
  {
    hide V.Encode, Padded, MakeTag, LittleEndian;
    SpellingLength(f, w);
    ShortestIsEncoded(MakeTag(f.fieldNumber, f.wireType), w.tag);
    if NumberOf(f.value).Some? {
      ShortestIsEncoded(NumberOf(f.value).value, w.number);
    }
  }

  lemma ShortestIsEncoded(v: nat, width: nat)
    requires Holds(v, width) && |V.Encode(v)| == width
    ensures width > 0 && Padded(v, width) == V.Encode(v)
  {
    PaddedEncodes(v, width);
    EncodingIsPadded(Padded(v, width), v);
  }
}
