/**
 The message writer: fields are appended to one buffer; a submessage is written straight
 into it after its tag, and its length is inserted in front of it when it is closed.
 */
module MessageWriters {
  import opened Bytes
  import opened ProtoFields
  import V = Varint

  const MAX_LENGTH_DELIMITED: nat := 0x7FFF_FFFF

  /** What a message consists of: fields written in one go and submessages written piece by piece. */
  datatype Element =
    | Plain(field: ProtoField)
    | Submessage(number: U32, body: seq<Element>)

  function TagBytes(number: U32): Bytes { V.Encode(MakeTag(number, LengthDelimited)) }

  function EncodeElement(e: Element): Bytes {
    match e
    case Plain(f) => SerializeField(f)
    case Submessage(n, body) => TagBytes(n) + V.Encode(|Encode(body)|) + Encode(body)
  }

  /** The recursive serialization of a message: each submessage preceded by its length. */
  function Encode(elements: seq<Element>): Bytes {
    if elements == [] then [] else EncodeElement(elements[0]) + Encode(elements[1..])
  }

  lemma {:induction false} EncodeConcat(a: seq<Element>, b: seq<Element>)
    ensures Encode(a + b) == Encode(a) + Encode(b)
  {
    hide EncodeElement;
    if a == [] {
      assert a + b == b;
    } else {
      EncodeConcat(a[1..], b);
      assert (a + b)[1..] == a[1..] + b && (a + b)[0] == a[0];
      var x, y, z := EncodeElement(a[0]), Encode(a[1..]), Encode(b);
      assert Encode(a + b) == x + (y + z);
      assert x + (y + z) == (x + y) + z;
    }
  }

  lemma EncodeSnoc(a: seq<Element>, e: Element)
    ensures Encode(a + [e]) == Encode(a) + EncodeElement(e)
  {
    EncodeConcat(a, [e]);
    assert [e][1..] == [];
  }

  // ---------------------------------------------------------------- drafts

  /** A submessage that is still open. */
  datatype Frame = Frame(number: U32, written: seq<Element>)

  /** A message being written: its finished elements, then the open submessages, outermost first. */
  datatype Draft = Draft(done: seq<Element>, open: seq<Frame>)

  function FrameBytes(f: Frame): Bytes { TagBytes(f.number) + Encode(f.written) }

  function OpenBytes(open: seq<Frame>): Bytes {
    if open == [] then [] else OpenBytes(open[..|open| - 1]) + FrameBytes(open[|open| - 1])
  }

  function DraftBytes(d: Draft): Bytes { Encode(d.done) + OpenBytes(d.open) }

  /** Where the contents of open submessage `k` begin. */
  function ContentStart(d: Draft, k: nat): nat
    requires k < |d.open|
  {
    |DraftBytes(Draft(d.done, d.open[..k]))| + |TagBytes(d.open[k].number)|
  }

  ghost predicate Represents(buf: Bytes, scopeStack: seq<nat>, d: Draft) {
    && buf == DraftBytes(d)
    && |scopeStack| == |d.open|
    && forall k | 0 <= k < |scopeStack| :: scopeStack[k] == ContentStart(d, k)
  }

  function Add(d: Draft, e: Element): Draft {
    if d.open == [] then d.(done := d.done + [e])
    else
      var last := d.open[|d.open| - 1];
      d.(open := d.open[..|d.open| - 1] + [last.(written := last.written + [e])])
  }

  datatype Op = WriteOp(field: ProtoField) | OpenOp(number: U32) | CloseOp

  /** One operation; closing fails without an open submessage and for one over the limit. */
  function Apply(d: Draft, op: Op): Option<Draft> {
    match op
    case WriteOp(f) => Some(Add(d, Plain(f)))
    case OpenOp(n) => Some(d.(open := d.open + [Frame(n, [])]))
    case CloseOp =>
      if d.open == [] then None
      else
        var last := d.open[|d.open| - 1];
        if |Encode(last.written)| > MAX_LENGTH_DELIMITED then None
        else Some(Add(d.(open := d.open[..|d.open| - 1]), Submessage(last.number, last.written)))
  }

  lemma AddKeeps(buf: Bytes, scopeStack: seq<nat>, d: Draft, e: Element)
    requires Represents(buf, scopeStack, d)
    ensures Represents(buf + EncodeElement(e), scopeStack, Add(d, e))
  {
    hide Encode, EncodeElement, TagBytes;
    var d' := Add(d, e);
    if d.open == [] {
      EncodeSnoc(d.done, e);
    } else {
      var m := |d.open| - 1;
      EncodeSnoc(d.open[m].written, e);
      assert d'.open[..m] == d.open[..m];
      forall k | 0 <= k < |scopeStack|
        ensures scopeStack[k] == ContentStart(d', k)
      {
        assert d'.open[..k] == d.open[..k];
      }
    }
  }

  lemma OpenKeeps(buf: Bytes, scopeStack: seq<nat>, d: Draft, number: U32)
    requires Represents(buf, scopeStack, d)
    ensures var d' := d.(open := d.open + [Frame(number, [])]);
      Represents(buf + TagBytes(number), scopeStack + [|buf + TagBytes(number)|], d')
  {
    hide EncodeElement, TagBytes;
    var d' := d.(open := d.open + [Frame(number, [])]);
    assert d'.open[..|d.open|] == d.open;
    assert Encode([]) == [];
    forall k | 0 <= k < |scopeStack|
      ensures scopeStack[k] == ContentStart(d', k)
    {
      assert d'.open[..k] == d.open[..k];
    }
  }

  /** The innermost open submessage stands at the end of the buffer, right behind its saved offset. */
  lemma InnermostScope(buf: Bytes, scopeStack: seq<nat>, d: Draft)
    requires Represents(buf, scopeStack, d) && d.open != []
    ensures var last, start := d.open[|d.open| - 1], scopeStack[|scopeStack| - 1];
      var outer := Draft(d.done, d.open[..|d.open| - 1]);
      && start <= |buf| && buf[start..] == Encode(last.written)
      && buf[..start] == DraftBytes(outer) + TagBytes(last.number)
      && Represents(DraftBytes(outer), scopeStack[..|scopeStack| - 1], outer)
  {
    hide Encode, EncodeElement, TagBytes;
    var m := |d.open| - 1;
    var last, outer := d.open[m], Draft(d.done, d.open[..m]);
    assert buf == (DraftBytes(outer) + TagBytes(last.number)) + Encode(last.written);
    forall k | 0 <= k < m
      ensures scopeStack[k] == ContentStart(outer, k)
    {
      assert outer.open[..k] == d.open[..k];
    }
  }

  lemma CloseKeeps(buf: Bytes, scopeStack: seq<nat>, d: Draft)
    requires Represents(buf, scopeStack, d) && Apply(d, CloseOp).Some?
    ensures var start := scopeStack[|scopeStack| - 1];
      && start <= |buf|
      && Represents(buf[..start] + V.Encode(|buf| - start) + buf[start..],
                       scopeStack[..|scopeStack| - 1], Apply(d, CloseOp).value)
  {
    hide Represents, DraftBytes, TagBytes, Encode, V.Encode;
    InnermostScope(buf, scopeStack, d);
    ScopesMatch(buf, scopeStack, d);
    var start, last := scopeStack[|scopeStack| - 1], d.open[|d.open| - 1];
    var outer := Draft(d.done, d.open[..|d.open| - 1]);
    var sub := Submessage(last.number, last.written);
    AddKeeps(DraftBytes(outer), scopeStack[..|scopeStack| - 1], outer, sub);
    assert DraftBytes(outer) + EncodeElement(sub)
        == (DraftBytes(outer) + TagBytes(last.number)) + V.Encode(|buf| - start) + buf[start..];
  }

  /** A submessage can be closed if one is open and its contents are within the limit. */
  lemma CloseCondition(buf: Bytes, scopeStack: seq<nat>, d: Draft)
    requires Represents(buf, scopeStack, d)
    ensures scopeStack == [] ==> Apply(d, CloseOp).None?
    ensures scopeStack != [] ==>
      var start := scopeStack[|scopeStack| - 1];
      start <= |buf| && (Apply(d, CloseOp).Some? <==> |buf| - start <= MAX_LENGTH_DELIMITED)
  {
    hide Represents, DraftBytes, Encode, Add;
    ScopesMatch(buf, scopeStack, d);
    if scopeStack != [] {
      InnermostScope(buf, scopeStack, d);
    }
  }

  lemma ScopesMatch(buf: Bytes, scopeStack: seq<nat>, d: Draft)
    requires Represents(buf, scopeStack, d)
    ensures |scopeStack| == |d.open|
  {
  }

  // ---------------------------------------------------------------- well-bracketed runs

  function Run(d: Draft, ops: seq<Op>): Option<Draft>
    decreases |ops|
  {
    if ops == [] then Some(d)
    else
      match Apply(d, ops[0])
      case None => None
      case Some(d') => Run(d', ops[1..])
  }

  function OpsOf(e: Element): seq<Op> {
    match e
    case Plain(f) => [WriteOp(f)]
    case Submessage(n, body) => [OpenOp(n)] + Ops(body) + [CloseOp]
  }

  /** The operations that write a message, every submessage between its opening and its closing. */
  function Ops(elements: seq<Element>): seq<Op> {
    if elements == [] then [] else OpsOf(elements[0]) + Ops(elements[1..])
  }

  predicate Fits(e: Element) {
    match e
    case Plain(_) => true
    case Submessage(_, body) => |Encode(body)| <= MAX_LENGTH_DELIMITED && AllFit(body)
  }

  /** No submessage, at any depth, exceeds the limit. */
  predicate AllFit(elements: seq<Element>) {
    elements == [] || (Fits(elements[0]) && AllFit(elements[1..]))
  }

  function AddAll(d: Draft, elements: seq<Element>): Draft {
    if d.open == [] then d.(done := d.done + elements)
    else
      var last := d.open[|d.open| - 1];
      d.(open := d.open[..|d.open| - 1] + [last.(written := last.written + elements)])
  }

  lemma AddThenAll(d: Draft, elements: seq<Element>)
    requires elements != []
    ensures AddAll(Add(d, elements[0]), elements[1..]) == AddAll(d, elements)
  {
    assert elements == [elements[0]] + elements[1..];
    if d.open == [] {
      assert d.done + elements == d.done + [elements[0]] + elements[1..];
    } else {
      var last := d.open[|d.open| - 1];
      assert last.written + elements == last.written + [elements[0]] + elements[1..];
    }
  }

  lemma {:induction false} RunConcat(d: Draft, a: seq<Op>, b: seq<Op>)
    ensures Run(d, a + b) == match Run(d, a) case Some(d') => Run(d', b) case None => None
    decreases |a|
  {
    if a == [] {
      assert a + b == b;
    } else {
      assert (a + b)[1..] == a[1..] + b;
      if Apply(d, a[0]).Some? {
        RunConcat(Apply(d, a[0]).value, a[1..], b);
      }
    }
  }

  /**
   Writing a message piece by piece succeeds exactly when no submessage exceeds the limit,
   and then adds the message to whatever was being written.
   */
  lemma {:induction false} OpsWriteMessage(d: Draft, elements: seq<Element>)
    ensures Run(d, Ops(elements)) == if AllFit(elements) then Some(AddAll(d, elements)) else None
    decreases elements, 1
  {
    hide Apply, Fits;
    if elements == [] {
      AddNothing(d);
    } else {
      var e := elements[0];
      OpsWriteElement(d, e);
      RunConcat(d, OpsOf(e), Ops(elements[1..]));
      if Fits(e) {
        OpsWriteMessage(Add(d, e), elements[1..]);
        AddThenAll(d, elements);
      }
    }
  }

  lemma AddNothing(d: Draft)
    ensures AddAll(d, []) == d
  {
    if d.open == [] {
      assert d.done + [] == d.done;
    } else {
      var last := d.open[|d.open| - 1];
      assert last.written + [] == last.written;
      assert d.open[..|d.open| - 1] + [last] == d.open;
    }
  }

  lemma {:induction false} OpsWriteElement(d: Draft, e: Element)
    ensures Run(d, OpsOf(e)) == if Fits(e) then Some(Add(d, e)) else None
    decreases e, 0
  {
    hide Encode;
    match e {
      case Plain(f) =>
        RunOne(d, WriteOp(f));
      case Submessage(n, body) =>
        var inside := d.(open := d.open + [Frame(n, [])]);
        RunOne(d, OpenOp(n));
        RunConcat(d, [OpenOp(n)], Ops(body));
        RunConcat(d, [OpenOp(n)] + Ops(body), [CloseOp]);
        OpsWriteMessage(inside, body);
        if AllFit(body) {
          var inner := AddAll(inside, body);
          assert [] + body == body;
          assert inner.open[..|d.open|] == d.open && inner.open[|d.open|] == Frame(n, body);
          RunOne(inner, CloseOp);
        }
    }
  }

  lemma RunOne(d: Draft, op: Op)
    ensures Run(d, [op]) == Apply(d, op)
  {
    assert [op][1..] == [];
  }

  // ---------------------------------------------------------------- what a finished message reads as

  /** A submessage is read back as one field holding its bytes. */
  function AsField(e: Element): ProtoField {
    match e
    case Plain(f) => f
    case Submessage(n, body) => ProtoField(n, LengthDelimited, LengthDelimitedValue(Encode(body)))
  }

  function AsFields(elements: seq<Element>): seq<ProtoField> {
    if elements == [] then [] else [AsField(elements[0])] + AsFields(elements[1..])
  }

  lemma {:induction false} EncodeSerializes(elements: seq<Element>)
    requires AllFit(elements)
    ensures Encode(elements) == Serialize(AsFields(elements))
  {
    hide SerializeField, V.Encode;
    if elements != [] {
      EncodeSerializes(elements[1..]);
      SubmessageSerializes(elements[0]);
      assert AsFields(elements)[1..] == AsFields(elements[1..]);
    }
  }

  lemma SubmessageSerializes(e: Element)
    requires Fits(e)
    ensures EncodeElement(e) == SerializeField(AsField(e))
  {
    hide Encode, V.Encode;
  }

  /**
   Provided the fields can be expressed, a finished message reads back as the fields written, submessages
   being fields that hold their own bytes.
   */
  lemma FinishedMessageReadsBack(elements: seq<Element>)
    requires AllFit(elements) && AllValid(AsFields(elements))
    ensures ReadFields(Canonical, Encode(elements), 0) == Some(AsFields(elements))
  {
    EncodeSerializes(elements);
    ReadFieldsInvertsSerialize(Encode(elements), AsFields(elements));
  }

  // ---------------------------------------------------------------- zigzag

  type I64 = x: int | -0x8000_0000_0000_0000 <= x < 0x8000_0000_0000_0000

  /** `(v << 1) ^ (v >> 63)`: doubling, and the complement of that for a negative value. */
  function Zigzag(v: I64): U64 { if v >= 0 then 2 * v else -2 * v - 1 }

  /** Every 64-bit pattern is the encoding of exactly one signed value. */
  lemma ZigzagIsBijective(u: U64)
    ensures var v: I64 := if u % 2 == 0 then u / 2 else -(u / 2) - 1;
      forall w: I64 :: Zigzag(w) == u <==> w == v
  {
  }

  /** `v as u64`: the two's complement of a negative value. */
  function AsUnsigned(v: I64): U64 { if v >= 0 then v else v + TWO_64 }

  /** It is the one 64-bit pattern congruent to the value, and no two values share a pattern. */
  lemma UnsignedIsCongruent(v: I64, u: U64)
    ensures AsUnsigned(v) == u <==> (u - v) % TWO_64 == 0
    ensures AsUnsigned(v) == u <==> v == if u < 0x8000_0000_0000_0000 then u else u - TWO_64
  {
  }

  // ---------------------------------------------------------------- the writer

  class SerializedMessageWriter {
    var buf: Bytes
    /** Where the contents of each open submessage begin. */
    var scopeStack: seq<nat>
    /** What the operations so far have written. */
    ghost var draft: Draft

    ghost predicate Valid()
      reads this
    {
      Represents(buf, scopeStack, draft)
    }

    constructor ()
      ensures Valid() && draft == Draft([], []) && buf == [] && scopeStack == []
    {
      buf, scopeStack, draft := [], [], Draft([], []);
    }

    method WriteField(field: ProtoField)
      requires Valid()
      modifies this
      ensures Valid() && Apply(old(draft), WriteOp(field)) == Some(draft)
      ensures buf == old(buf) + SerializeField(field) && scopeStack == old(scopeStack)
    {
      hide Represents, V.Encode, LittleEndian, Encode;
      AddKeeps(buf, scopeStack, draft, Plain(field));
      draft := Add(draft, Plain(field));
      buf := buf + V.Encode(MakeTag(field.fieldNumber, field.wireType));
      match field.value {
        case VarintValue(v) => buf := AppendVarint64(buf, v);
        case Fixed32Value(v) => buf := buf + LittleEndian(v, 4);
        case Fixed64Value(v) => buf := buf + LittleEndian(v, 8);
        case LengthDelimitedValue(data) =>
          buf := AppendVarint64(buf, |data| % TWO_32);
          buf := buf + data;
        case StartGroupValue =>
        case EndGroupValue =>
      }
      SerializedParts(old(buf), field);
      assert buf == old(buf) + EncodeElement(Plain(field));
    }

    method WriteUint64(fieldNumber: U32, value: U64)
      requires Valid()
      modifies this
      ensures Valid() && Apply(old(draft), WriteOp(ProtoField(fieldNumber, Varint, VarintValue(value)))) == Some(draft)
    {
      hide Represents;
      WriteField(ProtoField(fieldNumber, Varint, VarintValue(value)));
    }

    method WriteInt64(fieldNumber: U32, value: I64)
      requires Valid()
      modifies this
      ensures Valid()
        && Apply(old(draft), WriteOp(ProtoField(fieldNumber, Varint, VarintValue(AsUnsigned(value))))) == Some(draft)
    {
      hide Represents;
      WriteUint64(fieldNumber, AsUnsigned(value));
    }

    method WriteSint64(fieldNumber: U32, value: I64)
      requires Valid()
      modifies this
      ensures Valid()
        && Apply(old(draft), WriteOp(ProtoField(fieldNumber, Varint, VarintValue(Zigzag(value))))) == Some(draft)
    {
      hide Represents;
      WriteUint64(fieldNumber, Zigzag(value));
    }

    /** A bytes field; over the limit nothing is written. */
    method WriteBytes(fieldNumber: U32, data: Bytes) returns (ok: bool)
      requires Valid()
      modifies this
      ensures Valid() && ok == (|data| <= MAX_LENGTH_DELIMITED)
      ensures ok ==>
        Apply(old(draft), WriteOp(ProtoField(fieldNumber, LengthDelimited, LengthDelimitedValue(data)))) == Some(draft)
      ensures !ok ==> buf == old(buf) && scopeStack == old(scopeStack) && draft == old(draft)
    {
      hide Represents;
      if |data| > MAX_LENGTH_DELIMITED {
        return false;
      }
      WriteField(ProtoField(fieldNumber, LengthDelimited, LengthDelimitedValue(data)));
      return true;
    }

    method OpenLengthDelimited(fieldNumber: U32)
      requires Valid()
      modifies this
      ensures Valid() && Apply(old(draft), OpenOp(fieldNumber)) == Some(draft)
    {
      hide Represents, DraftBytes;
      OpenKeeps(buf, scopeStack, draft, fieldNumber);
      buf := buf + V.Encode(MakeTag(fieldNumber, LengthDelimited));
      scopeStack := scopeStack + [|buf|];
      draft := draft.(open := draft.open + [Frame(fieldNumber, [])]);
    }

    /** Closes the innermost open submessage. On failure everything stays as it was, the submessage open. */
    method CloseLengthDelimited() returns (ok: bool)
      requires Valid()
      modifies this
      ensures Valid() && ok == Apply(old(draft), CloseOp).Some?
      ensures ok ==> draft == Apply(old(draft), CloseOp).value
      ensures !ok ==> buf == old(buf) && scopeStack == old(scopeStack) && draft == old(draft)
    {
      hide Represents, Apply, V.Encode;
      CloseCondition(buf, scopeStack, draft);
      if scopeStack == [] {
        return false;
      }
      var contentStart := scopeStack[|scopeStack| - 1];
      var contentLen := |buf| - contentStart;
      if contentLen > MAX_LENGTH_DELIMITED {
        return false;
      }
      CloseKeeps(buf, scopeStack, draft);
      scopeStack := scopeStack[..|scopeStack| - 1];
      var lenVarint := V.EncodeU64(contentLen);
      buf := buf[..contentStart] + lenVarint + buf[contentStart..];
      draft := Apply(draft, CloseOp).value;
      return true;
    }

    /** The finished message, unless a submessage is still open. */
    method Finish() returns (r: Option<Bytes>)
      requires Valid()
      ensures r.Some? <==> draft.open == []
      ensures r == if scopeStack == [] then Some(buf) else None
      ensures r.Some? ==> r.value == Encode(draft.done)
    {
      hide Encode;
      if scopeStack != [] {
        return None;
      }
      assert OpenBytes([]) == [];
      return Some(buf);
    }
  }

  method AppendVarint64(buf: Bytes, v: U64) returns (r: Bytes)
    ensures r == buf + V.Encode(v)
  {
    var encoded := V.EncodeU64(v);
    r := buf + encoded;
  }

  lemma SerializedParts(buf: Bytes, field: ProtoField)
    ensures buf + SerializeField(field)
      == buf + V.Encode(MakeTag(field.fieldNumber, field.wireType)) + SerializeValue(field.value)
    ensures field.value.LengthDelimitedValue? ==>
      buf + SerializeField(field)
        == buf + V.Encode(MakeTag(field.fieldNumber, field.wireType))
           + V.Encode(|field.value.bytes| % TWO_32) + field.value.bytes
  {
    hide V.Encode;
  }
}
