/** Byte strings the formats prescribe, spelled out. */
module FormatExamples {
  import opened Bytes
  import opened ProtoFields
  import SC = SimpleChunk
  import CH = ChunkHeaders
  import V = Varint

  /** An uncompressed chunk with the one record "hello". */
  lemma HelloChunk(codec: SC.Codec)
    ensures SC.EncodeData(codec, SC.UNCOMPRESSED, [[104, 101, 108, 108, 111]])
      == Some([0x00, 0x01, 0x05, 104, 101, 108, 108, 111])
  {
    var r: Bytes := [104, 101, 108, 108, 111];
    assert [r][1..] == [];
    assert SC.Sizes([r]) == V.Encode(5) + [] == [5];
    assert SC.Concat([r]) == r + [] == r;
    assert V.Encode(1) == [1];
    assert SC.EncodePlain([r]) == [0x00] + [0x01] + [0x05] + r == [0x00, 0x01, 0x05, 104, 101, 108, 108, 111];
  }

  /** Field 1 holding 150, field 2 holding "abc" and field 1 holding a 32-bit integer. */
  lemma MixedMessage()
    ensures Serialize([ProtoField(1, Varint, VarintValue(150)),
                       ProtoField(2, LengthDelimited, LengthDelimitedValue([97, 98, 99])),
                       ProtoField(1, Fixed32, Fixed32Value(0x0403_0201))])
      == [0x08, 0x96, 0x01, 0x12, 0x03, 97, 98, 99, 0x0D, 0x01, 0x02, 0x03, 0x04]
  {
    var a := ProtoField(1, Varint, VarintValue(150));
    var b := ProtoField(2, LengthDelimited, LengthDelimitedValue([97, 98, 99]));
    var c := ProtoField(1, Fixed32, Fixed32Value(0x0403_0201));
    hide SerializeField, Serialize;
    FirstField();
    SecondField();
    ThirdField();
    ThreeFields(a, b, c);
  }

  lemma ThreeFields(a: ProtoField, b: ProtoField, c: ProtoField)
    ensures Serialize([a, b, c]) == SerializeField(a) + SerializeField(b) + SerializeField(c)
  {
    hide SerializeField;
    assert [a, b, c][1..] == [b, c] && [b, c][1..] == [c] && [c][1..] == [];
    assert Serialize([c]) == SerializeField(c) + [];
    assert Serialize([b, c]) == SerializeField(b) + Serialize([c]);
  }

  lemma FirstField()
    ensures SerializeField(ProtoField(1, Varint, VarintValue(150))) == [0x08, 0x96, 0x01]
  {
    assert V.Encode(8) == [8] && V.Encode(150) == [0x96] + V.Encode(1) && V.Encode(1) == [1];
  }

  lemma SecondField()
    ensures SerializeField(ProtoField(2, LengthDelimited, LengthDelimitedValue([97, 98, 99])))
      == [0x12, 0x03, 97, 98, 99]
  {
    assert V.Encode(0x12) == [0x12] && V.Encode(3) == [3];
  }

  lemma ThirdField()
    ensures SerializeField(ProtoField(1, Fixed32, Fixed32Value(0x0403_0201))) == [0x0D, 0x01, 0x02, 0x03, 0x04]
  {
    assert V.Encode(0x0D) == [0x0D];
    hide LittleEndian;
    LittleEndianExample();
  }

  lemma LittleEndianExample()
    ensures LittleEndian(0x0403_0201, 4) == [0x01, 0x02, 0x03, 0x04]
  {
    assert LittleEndian(0x04, 1) == [0x04] + LittleEndian(0, 0) == [0x04];
    assert LittleEndian(0x0403, 2) == [0x03] + LittleEndian(0x04, 1);
    assert LittleEndian(0x0403_02, 3) == [0x02] + LittleEndian(0x0403, 2);
  }

  /** A group with number 1 around a group with number 2, and a 64-bit integer in field 1. */
  lemma NestedGroups()
    ensures Serialize([ProtoField(1, StartGroup, StartGroupValue), ProtoField(2, StartGroup, StartGroupValue),
                       ProtoField(2, EndGroup, EndGroupValue), ProtoField(1, EndGroup, EndGroupValue)])
      == [0x0B, 0x13, 0x14, 0x0C]
    ensures V.Encode(MakeTag(1, Fixed64)) == [0x09]
  {
    var a, b := ProtoField(1, StartGroup, StartGroupValue), ProtoField(2, StartGroup, StartGroupValue);
    var c, d := ProtoField(2, EndGroup, EndGroupValue), ProtoField(1, EndGroup, EndGroupValue);
    GroupMarkers();
    hide SerializeField, V.Encode;
    assert [a, b, c, d][1..] == [b, c, d] && [b, c, d][1..] == [c, d] && [c, d][1..] == [d] && [d][1..] == [];
    assert Serialize([d]) == SerializeField(d) + [];
    assert Serialize([c, d]) == SerializeField(c) + Serialize([d]);
    assert Serialize([b, c, d]) == SerializeField(b) + Serialize([c, d]);
  }

  lemma GroupMarkers()
    ensures SerializeField(ProtoField(1, StartGroup, StartGroupValue)) == [0x0B]
    ensures SerializeField(ProtoField(2, StartGroup, StartGroupValue)) == [0x13]
    ensures SerializeField(ProtoField(2, EndGroup, EndGroupValue)) == [0x14]
    ensures SerializeField(ProtoField(1, EndGroup, EndGroupValue)) == [0x0C]
    ensures V.Encode(MakeTag(1, Fixed64)) == [0x09]
  {
    OneByte(0x0B);
    OneByte(0x13);
    OneByte(0x14);
    OneByte(0x0C);
    OneByte(0x09);
    hide V.Encode;
  }

  lemma OneByte(v: nat)
    requires v < 128
    ensures V.Encode(v) == [v]
  {
  }

  /** The type bytes are the letters s, m, p, r and t. */
  lemma TypeLetters(b: Byte)
    ensures CH.TypeOfByte(b) ==
      if b == 's' as nat then Some(CH.FileSignature)
      else if b == 'm' as nat then Some(CH.FileMetadata)
      else if b == 'p' as nat then Some(CH.Padding)
      else if b == 'r' as nat then Some(CH.Simple)
      else if b == 't' as nat then Some(CH.Transposed)
      else None
  {
  }
}
