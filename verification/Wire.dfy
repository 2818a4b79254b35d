/**
 The two validators of serialized messages. Both walk over the bytes with a stack of open
 groups and never build a field; what they decide is stated with the fields and their nesting.
 */
module Wire {
  import opened Bytes
  import opened ProtoFields
  import V = Varint

  /** Whether the fields from `pos` on close the groups opened before them and their own. */
  predicate RestIsMessage(rules: Rules, data: Bytes, pos: nat, open: seq<U32>) {
    var fields := ReadFields(rules, data, pos);
    fields.Some? && ClosesGroups(fields.value, open)
  }

  /** The open groups after the markers of one field, unless it closes the wrong group. */
  function AfterField(f: ProtoField, open: seq<U32>): Option<seq<U32>> {
    match f.wireType
    case StartGroup => Some(open + [f.fieldNumber])
    case EndGroup => if open != [] && open[|open| - 1] == f.fieldNumber then Some(open[..|open| - 1]) else None
    case _ => Some(open)
  }

  lemma RestStep(rules: Rules, data: Bytes, pos: nat, open: seq<U32>)
    requires pos < |data|
    ensures ReadField(rules, data, pos).None? ==> !RestIsMessage(rules, data, pos, open)
    ensures ReadField(rules, data, pos).Some? ==>
      var (f, end) := ReadField(rules, data, pos).value;
      RestIsMessage(rules, data, pos, open) <==>
        AfterField(f, open).Some? && RestIsMessage(rules, data, end, AfterField(f, open).value)
  {
    hide ReadField;
    if ReadField(rules, data, pos).Some? {
      var (f, end) := ReadField(rules, data, pos).value;
      if ReadFields(rules, data, end).Some? {
        var rest := ReadFields(rules, data, end).value;
        assert ([f] + rest)[1..] == rest;
      }
    }
  }

  /** The number, the wire type and the end of a field: all a validator looks at. */
  predicate FieldIs(rules: Rules, data: Bytes, pos: nat, fieldNumber: U32, wireType: WireType, end: nat) {
    var f := ReadField(rules, data, pos);
    f.Some? && f.value.0.fieldNumber == fieldNumber && f.value.0.wireType == wireType && f.value.1 == end
  }

  /** What the value of a field does to the position. */
  function ValueEnd(rules: Rules, data: Bytes, pos: nat, wireType: WireType): Option<nat>
    requires pos <= |data|
  {
    match ReadValue(rules, data, pos, wireType)
    case Some((_, end)) => Some(end)
    case None => None
  }

  /** The tag at `pos`: field number, wire type and the position after it. */
  function TagParts(rules: Rules, data: Bytes, pos: nat): (r: Option<(U32, WireType, nat)>)
    ensures r.Some? ==> pos < r.value.2 <= |data|
  {
    match ReadTag(rules, data, pos)
    case None => None
    case Some((tag, n)) =>
      if TagFieldNumber(tag) == 0 || TagWireType(tag).None? then None
      else Some((TagFieldNumber(tag), TagWireType(tag).value, pos + n))
  }

  lemma FieldFromParts(rules: Rules, data: Bytes, pos: nat)
    ensures TagParts(rules, data, pos).None? ==> ReadField(rules, data, pos).None?
    ensures TagParts(rules, data, pos).Some? ==>
      var (number, wireType, at) := TagParts(rules, data, pos).value;
      match ValueEnd(rules, data, at, wireType)
      case None => ReadField(rules, data, pos).None?
      case Some(end) => FieldIs(rules, data, pos, number, wireType, end) && pos < end <= |data|
  {
    hide ReadTag, ReadValue;
  }

  /** Reads the tag of a field under either set of rules. */
  method TakeTag(rules: Rules, data: Bytes, pos: nat) returns (r: Option<(U32, WireType, nat)>)
    ensures r == TagParts(rules, data, pos)
  {
    hide V.ReadCanonical, V.Decode;
    var tag, consumed;
    if rules.Canonical? {
      var read := V.ReadCanonicalVarint(data, pos, V.W32);
      if read.None? {
        return None;
      }
      tag, consumed := read.value.0, read.value.1;
      V.CapacityIsWidth();
      V.CanonicalIsDecodable(data, pos, V.W32);
    } else {
      var read := V.DecodeVarint(data, pos, V.W64);
      if read.Failure? || read.value.0 >= TWO_32 {
        return None;
      }
      tag, consumed := read.value.0, read.value.1;
    }
    var fieldNumber := TagFieldNumber(tag);
    if fieldNumber == 0 {
      return None;
    }
    var wireType := TagWireType(tag);
    if wireType.None? {
      return None;
    }
    return Some((fieldNumber, wireType.value, pos + consumed));
  }

  /** Moves past the value of a field under the canonical rules, without decoding a varint. */
  method SkipCanonicalValue(data: Bytes, pos: nat, wireType: WireType) returns (end: Option<nat>)
    requires pos <= |data|
    ensures end == ValueEnd(Canonical, data, pos, wireType)
  {
    hide V.ReadCanonical, FromLittleEndian;
    match wireType {
      case Varint =>
        var n := V.SkipCanonicalVarint64(data, pos);
        return match n case Some(k) => Some(pos + k) case None => None;
      case Fixed32 =>
        return if pos + 4 > |data| then None else Some(pos + 4);
      case Fixed64 =>
        return if pos + 8 > |data| then None else Some(pos + 8);
      case LengthDelimited =>
        var read := V.ReadCanonicalVarint(data, pos, V.W32);
        if read.None? {
          return None;
        }
        var (length, consumed) := read.value;
        return if pos + consumed + length <= |data| then Some(pos + consumed + length) else None;
      case StartGroup =>
        return Some(pos);
      case EndGroup =>
        return Some(pos);
    }
  }

  /** Moves past the value of a field under the permissive rules. */
  method SkipPermissiveValue(data: Bytes, pos: nat, wireType: WireType) returns (end: Option<nat>)
    requires pos <= |data|
    ensures end == ValueEnd(Permissive, data, pos, wireType)
  {
    hide V.Decode, FromLittleEndian;
    match wireType {
      case Varint =>
        var read := V.DecodeVarint(data, pos, V.W64);
        return match read case Success((_, k)) => Some(pos + k) case Failure(_) => None;
      case Fixed32 =>
        return if |data| - pos < 4 then None else Some(pos + 4);
      case Fixed64 =>
        return if |data| - pos < 8 then None else Some(pos + 8);
      case LengthDelimited =>
        var read := V.DecodeVarint(data, pos, V.W64);
        if read.Failure? {
          return None;
        }
        var (length, consumed) := read.value;
        return if length > |data| - (pos + consumed) then None else Some(pos + consumed + length);
      case StartGroup =>
        return Some(pos);
      case EndGroup =>
        return Some(pos);
    }
  }

  lemma RestFromStart(rules: Rules, data: Bytes)
    ensures IsMessage(rules, data) <==> RestIsMessage(rules, data, 0, [])
  {
  }

  /** `is_proto_message` and `is_parseable_proto_message`: the same walk under the two sets of rules. */
  method ValidateMessage(rules: Rules, data: Bytes) returns (valid: bool)
    ensures valid <==> IsMessage(rules, data)
  {
    hide TagParts, ValueEnd, RestIsMessage, ReadFields, ReadField;
    var pos: nat := 0;
    var startedGroups: seq<U32> := [];
    RestFromStart(rules, data);
    while pos < |data|
      invariant pos <= |data|
      invariant IsMessage(rules, data) <==> RestIsMessage(rules, data, pos, startedGroups)
    {
      RestStep(rules, data, pos, startedGroups);
      FieldFromParts(rules, data, pos);
      var tag := TakeTag(rules, data, pos);
      if tag.None? {
        return false;
      }
      var (fieldNumber, wireType, at) := tag.value;
      var end;
      if rules.Canonical? {
        end := SkipCanonicalValue(data, at, wireType);
      } else {
        end := SkipPermissiveValue(data, at, wireType);
      }
      if end.None? {
        return false;
      }
      pos := end.value;
      match wireType {
        case StartGroup =>
          startedGroups := startedGroups + [fieldNumber];
        case EndGroup =>
          if startedGroups == [] || startedGroups[|startedGroups| - 1] != fieldNumber {
            return false;
          }
          startedGroups := startedGroups[..|startedGroups| - 1];
        case _ =>
      }
    }
    RestAtEnd(rules, data, pos, startedGroups);
    return startedGroups == [];
  }

  lemma RestAtEnd(rules: Rules, data: Bytes, pos: nat, open: seq<U32>)
    requires pos >= |data|
    ensures RestIsMessage(rules, data, pos, open) <==> open == []
  {
  }
}
