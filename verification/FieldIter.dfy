/**
 The field iterator, the iterator that keeps only chosen fields and groups, and the copying
 of those to a message writer.
 */
module FieldIterators {
  import opened Bytes
  import opened ProtoFields
  import opened ProtoTrees
  import opened MessageWriters
  import V = Varint

  datatype FieldError = MalformedData

  type Item = Result<ProtoField, FieldError>

  /** What an iterator at `pos` has yet to yield: fields, then possibly one error. */
  function ItemsFrom(data: Bytes, pos: nat): seq<Item>
    decreases |data| - pos
  {
    if pos >= |data| then []
    else
      match ReadField(Canonical, data, pos)
      case None => [Failure(MalformedData)]
      case Some((f, end)) => [Success(f)] + ItemsFrom(data, end)
  }

  function Yielded(fields: seq<ProtoField>): seq<Item> { seq(|fields|,
                   i requires 0 <= i < |fields| => Success(fields[i])) }

  predicate NoError(items: seq<Item>) { forall i | 0 <= i < |items| :: items[i].Success? }

  lemma {:induction false} ItemsAreFields(data: Bytes, pos: nat)
    ensures NoError(ItemsFrom(data, pos)) <==> ReadFields(Canonical, data, pos).Some?
    ensures NoError(ItemsFrom(data, pos)) ==> ItemsFrom(data, pos) == Yielded(ReadFields(Canonical, data, pos).value)
    decreases |data| - pos
  {
    hide ReadField;
    var items := ItemsFrom(data, pos);
    if pos < |data| {
      if ReadField(Canonical, data, pos).None? {
        assert items[0].Failure?;
      } else {
        var (f, end) := ReadField(Canonical, data, pos).value;
        ItemsAreFields(data, end);
        assert items[1..] == ItemsFrom(data, end);
        assert NoError(items) <==> NoError(items[1..]) by {
          assert items[0].Success?;
          assert NoError(items[1..]) ==> forall i | 1 <= i < |items| :: items[i] == items[1..][i - 1];
        }
      }
    }
  }

  /**
   A byte string is a message exactly when iterating over it yields no error and the group
   markers yielded are well nested; writing the fields yielded then gives the bytes back.
   */
  lemma MessageIffIteratesNested(data: Bytes, fields: seq<ProtoField>)
    ensures IsMessage(Canonical, data) && ReadFields(Canonical, data, 0) == Some(fields)
      <==> ItemsFrom(data, 0) == Yielded(fields) && ClosesGroups(fields, [])
    ensures ItemsFrom(data, 0) == Yielded(fields) ==> Serialize(fields) == data
  {
    ItemsAreFields(data, 0);
    hide ReadFields, ClosesGroups, ItemsFrom, Serialize;
    if ItemsFrom(data, 0) == Yielded(fields) {
      var read := ReadFields(Canonical, data, 0).value;
      assert |read| == |Yielded(read)| == |Yielded(fields)| == |fields|;
      forall i | 0 <= i < |fields|
        ensures read[i] == fields[i]
      {
        assert Yielded(read)[i] == Yielded(fields)[i];
      }
      assert read == fields;
      ReadFieldsInvertsSerialize(data, fields);
    }
  }

  class ProtoFieldIter {
    const data: Bytes
    var pos: nat
    var errored: bool

    constructor (data: Bytes)
      ensures this.data == data && Rest() == ItemsFrom(data, 0)
    {
      this.data := data;
      pos, errored := 0, false;
    }

    /** What is still to come. */
    function Rest(): seq<Item>
      reads this
    {
      if errored then [] else ItemsFrom(data, pos)
    }

    method Next() returns (r: Option<Item>)
      modifies this
      ensures old(Rest()) == [] ==> r == None && Rest() == []
      ensures old(Rest()) != [] ==> r == Some(old(Rest())[0]) && Rest() == old(Rest())[1..]
    {
      hide V.ReadCanonical, MakeTag, FromLittleEndian;
      if errored || pos >= |data| {
        return None;
      }
      V.CapacityIsWidth();
      ghost var start := pos;
      var read := V.ReadCanonicalVarint(data, pos, V.W32);
      if read.None? {
        errored := true;
        return Some(Failure(MalformedData));
      }
      V.CanonicalIsDecodable(data, pos, V.W32);
      var (tag, tagLen) := read.value;
      var fieldNumber := TagFieldNumber(tag);
      if fieldNumber == 0 {
        errored := true;
        return Some(Failure(MalformedData));
      }
      var wireType := TagWireType(tag);
      if wireType.None? {
        errored := true;
        return Some(Failure(MalformedData));
      }
      pos := pos + tagLen;
      assert ReadTag(Canonical, data, start) == Some((tag, tagLen));
      var value := TakeValue(wireType.value);
      if value.None? {
        errored := true;
        return Some(Failure(MalformedData));
      }
      var field := ProtoField(fieldNumber, wireType.value, value.value);
      assert ReadField(Canonical, data, start) == Some((field, pos));
      r := Some(Success(field));
    }

    /** Reads the value at the current position. */
    method TakeValue(wireType: WireType) returns (r: Option<FieldValue>)
      requires pos <= |data|
      modifies this`pos
      ensures match ReadValue(Canonical, data, old(pos), wireType)
        case Some((value, end)) => r == Some(value) && pos == end
        case None => r == None
    {
      hide V.ReadCanonical, FromLittleEndian;
      match wireType {
        case Varint =>
          var read := V.ReadCanonicalVarint(data, pos, V.W64);
          if read.None? {
            return None;
          }
          V.CapacityIsWidth();
          V.CanonicalIsDecodable(data, pos, V.W64);
          pos := pos + read.value.1;
          return Some(VarintValue(read.value.0));
        case Fixed32 =>
          if pos + 4 > |data| {
            return None;
          }
          FixedFits(data[pos..pos + 4]);
          pos := pos + 4;
          return Some(Fixed32Value(FromLittleEndian(data[pos - 4..pos])));
        case Fixed64 =>
          if pos + 8 > |data| {
            return None;
          }
          FixedFits(data[pos..pos + 8]);
          pos := pos + 8;
          return Some(Fixed64Value(FromLittleEndian(data[pos - 8..pos])));
        case LengthDelimited =>
          var read := V.ReadCanonicalVarint(data, pos, V.W32);
          if read.None? {
            return None;
          }
          var (length, consumed) := read.value;
          pos := pos + consumed;
          var end := pos + length;
          if end > |data| {
            return None;
          }
          r := Some(LengthDelimitedValue(data[pos..end]));
          pos := end;
        case StartGroup =>
          return Some(StartGroupValue);
        case EndGroup =>
          return Some(EndGroupValue);
      }
    }
  }

  // ---------------------------------------------------------------- filtering

  /** What the filter makes of the items to come, `depth` groups deep in a group that is kept or not. */
  function FilterItems(items: seq<Item>, allowed: seq<U32>, depth: nat, keeping: bool): (r: seq<Item>)
    ensures |r| <= |items|
  {
    if items == [] then []
    else if items[0].Failure? then [items[0]] + FilterItems(items[1..], allowed, depth, keeping)
    else
      var f := items[0].value;
      if depth > 0 then
        var depth' := if f.wireType == StartGroup then depth + 1
                        else if f.wireType == EndGroup then depth - 1 else depth;
        (if keeping then [items[0]] else []) + FilterItems(items[1..], allowed, depth', keeping)
      else if f.wireType == StartGroup then
        var keep := f.fieldNumber in allowed;
        (if keep then [items[0]] else []) + FilterItems(items[1..], allowed, 1, keep)
      else if f.wireType == EndGroup then [Failure(MalformedData)]
      else (if f.fieldNumber in allowed then [items[0]] else []) + FilterItems(items[1..], allowed, 0, keeping)
  }

  class FilteredFieldIter {
    const inner: ProtoFieldIter
    const allowed: seq<U32>
    var groupDepth: nat
    var keepingGroup: bool
    var errored: bool

    constructor (data: Bytes, allowed: seq<U32>)
      ensures fresh(inner) && Rest() == FilterItems(ItemsFrom(data, 0), allowed, 0, false)
    {
      inner := new ProtoFieldIter(data);
      this.allowed := allowed;
      groupDepth, keepingGroup, errored := 0, false, false;
    }

    function Rest(): seq<Item>
      reads this, inner
    {
      if errored then [] else FilterItems(inner.Rest(), allowed, groupDepth, keepingGroup)
    }

    method Next() returns (r: Option<Item>)
      modifies this, inner
      ensures old(Rest()) == [] ==> r == None && Rest() == []
      ensures old(Rest()) != [] ==> r == Some(old(Rest())[0]) && Rest() == old(Rest())[1..]
    {
      hide ItemsFrom;
      if errored {
        return None;
      }
      while true
        invariant !errored && Rest() == old(Rest())
        decreases |inner.Rest()|
      {
        ghost var items := inner.Rest();
        var next := inner.Next();
        if next.None? {
          return None;
        }
        if next.value.Failure? {
          return next;
        }
        var field := next.value.value;
        if groupDepth > 0 {
          match field.wireType {
            case StartGroup => groupDepth := groupDepth + 1;
            case EndGroup => groupDepth := groupDepth - 1;
            case _ =>
          }
          if keepingGroup {
            return next;
          }
          continue;
        }
        if field.wireType == StartGroup {
          groupDepth := 1;
          keepingGroup := field.fieldNumber in allowed;
          if keepingGroup {
            return next;
          }
          continue;
        }
        if field.wireType == EndGroup {
          errored := true;
          return Some(Failure(MalformedData));
        }
        if field.fieldNumber in allowed {
          return next;
        }
      }
    }
  }

  // ---------------------------------------------------------------- filtering messages

  /** The top-level fields and whole groups whose number is in the set. */
  function Keep(nodes: seq<Node>, allowed: seq<U32>): seq<Node> {
    if nodes == [] then []
    else (if nodes[0].Number() in allowed then [nodes[0]] else []) + Keep(nodes[1..], allowed)
  }

  lemma YieldedConcat(a: seq<ProtoField>, b: seq<ProtoField>)
    ensures Yielded(a + b) == Yielded(a) + Yielded(b)
  {
  }

  /** Inside a group, the filter keeps or drops whole trees with the group. */
  lemma {:induction false} FilterInside(nodes: seq<Node>, rest: seq<Item>, allowed: seq<U32>, depth: nat, keeping: bool)
    requires Proper(nodes) && depth > 0
    ensures FilterItems(Yielded(Flatten(nodes)) + rest, allowed, depth, keeping)
      == (if keeping then Yielded(Flatten(nodes)) else []) + FilterItems(rest, allowed, depth, keeping)
    decreases nodes, 1
  {
    if nodes == [] {
      assert Yielded(Flatten(nodes)) + rest == rest;
    } else {
      var first, tail := Yielded(FlattenNode(nodes[0])), Yielded(Flatten(nodes[1..]));
      YieldedConcat(FlattenNode(nodes[0]), Flatten(nodes[1..]));
      assert Yielded(Flatten(nodes)) + rest == first + (tail + rest);
      FilterInsideNode(nodes[0], tail + rest, allowed, depth, keeping);
      FilterInside(nodes[1..], rest, allowed, depth, keeping);
    }
  }

  lemma {:induction false} FilterInsideNode(node: Node, rest: seq<Item>, allowed: seq<U32>, depth: nat, keeping: bool)
    requires ProperNode(node) && depth > 0
    ensures FilterItems(Yielded(FlattenNode(node)) + rest, allowed, depth, keeping)
      == (if keeping then Yielded(FlattenNode(node)) else []) + FilterItems(rest, allowed, depth, keeping)
    decreases node, 0
  {
    match node {
      case Leaf(f) =>
        assert (Yielded([f]) + rest)[1..] == rest;
      case Group(n, body) =>
        var inner, end := Yielded(Flatten(body)), [Item.Success(EndMarker(n))];
        GroupItems(n, body, rest);
        FilterInside(body, end + rest, allowed, depth + 1, keeping);
        assert (end + rest)[1..] == rest;
        assert (Yielded(FlattenNode(node)) + rest)[1..] == inner + (end + rest);
    }
  }

  lemma GroupItems(n: U32, body: seq<Node>, rest: seq<Item>)
    ensures Yielded(FlattenNode(Group(n, body)))
      == [Item.Success(StartMarker(n))] + Yielded(Flatten(body)) + [Item.Success(EndMarker(n))]
    ensures Yielded(FlattenNode(Group(n, body))) + rest
      == [Item.Success(StartMarker(n))] + (Yielded(Flatten(body)) + ([Item.Success(EndMarker(n))] + rest))
  {
    YieldedConcat([StartMarker(n)] + Flatten(body), [EndMarker(n)]);
    YieldedConcat([StartMarker(n)], Flatten(body));
  }

  /** At the top level the filter drops exactly the nodes whose number is not in the set. */
  lemma {:induction false} FilterTrees(nodes: seq<Node>, allowed: seq<U32>, keeping: bool)
    requires Proper(nodes)
    ensures FilterItems(Yielded(Flatten(nodes)), allowed, 0, keeping) == Yielded(Flatten(Keep(nodes, allowed)))
  {
    if nodes != [] {
      var node := nodes[0];
      var keep := node.Number() in allowed;
      var tail := Yielded(Flatten(nodes[1..]));
      YieldedConcat(FlattenNode(node), Flatten(nodes[1..]));
      FilterTopNode(node, tail, allowed, keeping);
      FilterTrees(nodes[1..], allowed, if node.Group? then keep else keeping);
      if keep {
        assert Keep(nodes, allowed)[1..] == Keep(nodes[1..], allowed);
        YieldedConcat(FlattenNode(node), Flatten(Keep(nodes[1..], allowed)));
      } else {
        assert Keep(nodes, allowed) == Keep(nodes[1..], allowed);
      }
    }
  }

  lemma FilterTopNode(node: Node, rest: seq<Item>, allowed: seq<U32>, keeping: bool)
    requires ProperNode(node)
    ensures var keep := node.Number() in allowed;
      FilterItems(Yielded(FlattenNode(node)) + rest, allowed, 0, keeping)
        == (if keep then Yielded(FlattenNode(node)) else [])
          + FilterItems(rest, allowed, 0, if node.Group? then keep else keeping)
  {
    match node {
      case Leaf(f) =>
        assert (Yielded([f]) + rest)[1..] == rest;
      case Group(n, body) =>
        var keep := n in allowed;
        var inner, end := Yielded(Flatten(body)), [Item.Success(EndMarker(n))];
        GroupItems(n, body, rest);
        FilterInside(body, end + rest, allowed, 1, keep);
        assert (end + rest)[1..] == rest;
        assert (Yielded(FlattenNode(node)) + rest)[1..] == inner + (end + rest);
    }
  }

  lemma {:induction false} KeptIsValid(nodes: seq<Node>, allowed: seq<U32>)
    requires ValidTrees(nodes)
    ensures ValidTrees(Keep(nodes, allowed))
    ensures forall node | node in Keep(nodes, allowed) :: node in nodes && node.Number() in allowed
  {
    if nodes != [] {
      assert forall f | f in Flatten(nodes[1..]) :: f in Flatten(nodes);
      KeptIsValid(nodes[1..], allowed);
      var rest := Keep(nodes[1..], allowed);
      if nodes[0].Number() in allowed {
        assert Keep(nodes, allowed)[1..] == rest;
        assert forall f | f in FlattenNode(nodes[0]) :: f in Flatten(nodes);
      } else {
        assert Keep(nodes, allowed) == rest;
      }
    }
  }

  function Intersection(a: seq<U32>, b: seq<U32>): seq<U32> {
    if a == [] then [] else (if a[0] in b then [a[0]] else []) + Intersection(a[1..], b)
  }

  lemma {:induction false} InIntersection(a: seq<U32>, b: seq<U32>, x: U32)
    ensures x in Intersection(a, b) <==> x in a && x in b
  {
    if a != [] {
      InIntersection(a[1..], b, x);
    }
  }

  lemma {:induction false} KeepTwice(nodes: seq<Node>, a: seq<U32>, b: seq<U32>)
    ensures Keep(Keep(nodes, a), b) == Keep(nodes, Intersection(a, b))
  {
    if nodes != [] {
      KeepTwice(nodes[1..], a, b);
      InIntersection(a, b, nodes[0].Number());
      if nodes[0].Number() in a {
        assert Keep(nodes, a)[1..] == Keep(nodes[1..], a);
      } else {
        assert Keep(nodes, a) == Keep(nodes[1..], a);
        assert Keep(nodes, Intersection(a, b)) == Keep(nodes[1..], Intersection(a, b));
      }
    }
  }

  // ---------------------------------------------------------------- copying

  /** The fields before the first error. */
  function Copied(items: seq<Item>): seq<ProtoField> {
    if items == [] || items[0].Failure? then [] else [items[0].value] + Copied(items[1..])
  }

  lemma {:induction false} CopiedOfYielded(fields: seq<ProtoField>)
    ensures Copied(Yielded(fields)) == fields
  {
    if fields != [] {
      CopiedOfYielded(fields[1..]);
      assert Yielded(fields)[1..] == Yielded(fields[1..]);
    }
  }

  /** Copies the chosen fields until the end or the first error. */
  method CopyFields(source: Bytes, fieldNumbers: seq<U32>, writer: SerializedMessageWriter) returns (ok: bool)
    requires writer.Valid()
    modifies writer
    ensures writer.Valid() && writer.scopeStack == old(writer.scopeStack)
    ensures var items := FilterItems(ItemsFrom(source, 0), fieldNumbers, 0, false);
      && ok == NoError(items)
      && writer.buf == old(writer.buf) + Serialize(Copied(items))
    ensures |writer.draft.open| == |old(writer.draft.open)|
  {
    hide ItemsFrom, FilterItems, Represents, SerializeField;
    var iter := new FilteredFieldIter(source, fieldNumbers);
    ghost var items := iter.Rest();
    ghost var k := 0;
    while true
      invariant fresh(iter) && fresh(iter.inner) && writer.Valid()
      invariant k <= |items| && iter.Rest() == items[k..] && NoError(items[..k])
      invariant writer.buf + Serialize(Copied(items[k..])) == old(writer.buf) + Serialize(Copied(items))
      invariant writer.scopeStack == old(writer.scopeStack) && |writer.draft.open| == |old(writer.draft.open)|
      decreases |items| - k
    {
      var next := iter.Next();
      if next.None? {
        assert items[..k] == items;
        return true;
      }
      if next.value.Failure? {
        assert items[k].Failure?;
        return false;
      }
      assert items[k..][1..] == items[k + 1..] && items[..k + 1] == items[..k] + [items[k]];
      SerializeFirst(next.value.value, Copied(items[k + 1..]));
      writer.WriteField(next.value.value);
      k := k + 1;
    }
  }

  lemma SerializeFirst(f: ProtoField, rest: seq<ProtoField>)
    ensures Serialize([f] + rest) == SerializeField(f) + Serialize(rest)
  {
    assert ([f] + rest)[1..] == rest;
  }

  /** What copying makes of a message: the bytes of the kept nodes, again a message, without an error. */
  lemma CopyKeepsChosenNodes(nodes: seq<Node>, allowed: seq<U32>)
    requires ValidTrees(nodes)
    ensures var items := FilterItems(ItemsFrom(EncodeTrees(nodes), 0), allowed, 0, false);
      && NoError(items)
      && Serialize(Copied(items)) == EncodeTrees(Keep(nodes, allowed))
    ensures IsMessage(Canonical, EncodeTrees(Keep(nodes, allowed)))
  {
    hide ItemsFrom, FilterItems, Flatten, Serialize;
    TreesAreMessages(nodes);
    MessageIffIteratesNested(EncodeTrees(nodes), Flatten(nodes));
    FilterTrees(nodes, allowed, false);
    CopiedOfYielded(Flatten(Keep(nodes, allowed)));
    KeptIsValid(nodes, allowed);
    TreesAreMessages(Keep(nodes, allowed));
  }

  /** The bytes copied from a source. */
  function CopiedBytes(source: Bytes, allowed: seq<U32>): Bytes {
    Serialize(Copied(FilterItems(ItemsFrom(source, 0), allowed, 0, false)))
  }

  /**
   Copying from a message never fails and gives a message; copying with one set and then
   with another is copying with what they have in common.
   */
  lemma CopyTwiceIsIntersection(data: Bytes, a: seq<U32>, b: seq<U32>)
    requires IsMessage(Canonical, data)
    ensures NoError(FilterItems(ItemsFrom(data, 0), a, 0, false)) && IsMessage(Canonical, CopiedBytes(data, a))
    ensures CopiedBytes(CopiedBytes(data, a), b) == CopiedBytes(data, Intersection(a, b))
  {
    hide ItemsFrom, FilterItems, Keep, IsMessage, EncodeTrees, ValidTrees, Serialize, Copied, NoError;
    var nodes := MessagesAreTrees(data);
    CopyKeepsChosenNodes(nodes, a);
    CopyKeepsChosenNodes(nodes, Intersection(a, b));
    KeptIsValid(nodes, a);
    CopyKeepsChosenNodes(Keep(nodes, a), b);
    KeepTwice(nodes, a, b);
  }

  /** Whether an end marker comes up that closes no group, `depth` groups being open. */
  predicate Dangles(items: seq<Item>, depth: nat) {
    if items == [] || items[0].Failure? then false
    else
      match items[0].value.wireType
      case StartGroup => Dangles(items[1..], depth + 1)
      case EndGroup => depth == 0 || Dangles(items[1..], depth - 1)
      case _ => Dangles(items[1..], depth)
  }

  /** On any bytes, whether the filter fails depends on them alone and not on the set. */
  lemma {:induction false} FilterFailsExactly(items: seq<Item>, allowed: seq<U32>, depth: nat, keeping: bool)
    ensures NoError(FilterItems(items, allowed, depth, keeping)) <==> NoError(items) && !Dangles(items, depth)
  {
    hide NoError;
    if items == [] {
      NoErrorFirst([], []);
    } else {
      var first, rest := items[0], items[1..];
      assert items == [first] + rest;
      NoErrorFirst([first], rest);
      if first.Failure? {
        NoErrorFirst([first], FilterItems(rest, allowed, depth, keeping));
      } else {
        var f := first.value;
        var depth' := if f.wireType == StartGroup then depth + 1
                          else if f.wireType == EndGroup && depth > 0 then depth - 1 else depth;
        var keeping' := if depth == 0 && f.wireType == StartGroup then f.fieldNumber in allowed else keeping;
        FilterFailsExactly(rest, allowed, depth', keeping');
        NoErrorFirst([first], FilterItems(rest, allowed, depth', keeping'));
        NoErrorFirst([], FilterItems(rest, allowed, depth', keeping'));
        NoErrorFirst([Failure(MalformedData)], []);
        assert [Item.Failure(MalformedData)] + [] == [Item.Failure(MalformedData)];
      }
    }
  }

  lemma NoErrorFirst(a: seq<Item>, b: seq<Item>)
    ensures NoError(a + b) <==> NoError(a) && NoError(b)
    ensures |a| == 1 ==> (NoError(a) <==> a[0].Success?)
    ensures a == [] ==> NoError(a)
  {
    if NoError(a + b) {
      assert forall i | 0 <= i < |a| :: a[i] == (a + b)[i];
      assert forall i | 0 <= i < |b| :: b[i] == (a + b)[|a| + i];
    }
  }
}
