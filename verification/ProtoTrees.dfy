/**
 Messages as trees: the flat fields of a message, with their group markers, are the
 flattening of exactly one sequence of nodes, a node being a single field or a whole group.
 */
module ProtoTrees {
  import opened Bytes
  import opened ProtoFields

  datatype Node =
    | Leaf(field: ProtoField)
    | Group(number: U32, body: seq<Node>)
  {
    function Number(): U32 { if Leaf? then field.fieldNumber else number }
  }

  function StartMarker(number: U32): ProtoField { ProtoField(number, StartGroup, StartGroupValue) }

  function EndMarker(number: U32): ProtoField { ProtoField(number, EndGroup, EndGroupValue) }

  predicate IsMarker(f: ProtoField) { f.wireType == StartGroup || f.wireType == EndGroup }

  /** No leaf poses as a group marker. */
  predicate Proper(nodes: seq<Node>) {
    nodes == [] || (ProperNode(nodes[0]) && Proper(nodes[1..]))
  }

  predicate ProperNode(node: Node) {
    match node
    case Leaf(f) => !IsMarker(f)
    case Group(_, body) => Proper(body)
  }

  function FlattenNode(node: Node): (r: seq<ProtoField>)
    ensures |r| > 0
  {
    match node
    case Leaf(f) => [f]
    case Group(n, body) => [StartMarker(n)] + Flatten(body) + [EndMarker(n)]
  }

  function Flatten(nodes: seq<Node>): seq<ProtoField> {
    if nodes == [] then [] else FlattenNode(nodes[0]) + Flatten(nodes[1..])
  }

  lemma {:induction false} FlattenConcat(a: seq<Node>, b: seq<Node>)
    ensures Flatten(a + b) == Flatten(a) + Flatten(b)
  {
    hide FlattenNode;
    if a == [] {
      assert a + b == b;
    } else {
      FlattenConcat(a[1..], b);
      assert (a + b)[1..] == a[1..] + b;
    }
  }

  lemma {:induction false} ProperConcat(a: seq<Node>, b: seq<Node>)
    ensures Proper(a + b) <==> Proper(a) && Proper(b)
  {
    if a == [] {
      assert a + b == b;
    } else {
      ProperConcat(a[1..], b);
      assert (a + b)[1..] == a[1..] + b;
    }
  }

  // ---------------------------------------------------------------- trees close their groups

  lemma {:induction false} TreesClose(nodes: seq<Node>, rest: seq<ProtoField>, open: seq<U32>)
    requires Proper(nodes)
    ensures ClosesGroups(Flatten(nodes) + rest, open) <==> ClosesGroups(rest, open)
    decreases nodes, 1
  {
    if nodes == [] {
      assert Flatten(nodes) + rest == rest;
    } else {
      var tail := Flatten(nodes[1..]) + rest;
      TreesClose(nodes[1..], rest, open);
      NodeCloses(nodes[0], tail, open);
      assert Flatten(nodes) + rest == FlattenNode(nodes[0]) + tail;
    }
  }

  lemma {:induction false} NodeCloses(node: Node, rest: seq<ProtoField>, open: seq<U32>)
    requires ProperNode(node)
    ensures ClosesGroups(FlattenNode(node) + rest, open) <==> ClosesGroups(rest, open)
    decreases node, 0
  {
    match node {
      case Leaf(f) => assert ([f] + rest)[1..] == rest;
      case Group(n, body) =>
        var inner := Flatten(body) + ([EndMarker(n)] + rest);
        assert FlattenNode(node) + rest == [StartMarker(n)] + inner;
        assert ([StartMarker(n)] + inner)[1..] == inner;
        TreesClose(body, [EndMarker(n)] + rest, open + [n]);
        assert ([EndMarker(n)] + rest)[1..] == rest;
        assert (open + [n])[..|open|] == open;
    }
  }

  // ---------------------------------------------------------------- what closes its groups is a tree

  /** What follows the nodes at one level: nothing, or the end of the innermost open group and the rest. */
  function Ending(open: seq<U32>, rest: seq<ProtoField>): seq<ProtoField> {
    if open == [] then [] else [EndMarker(open[|open| - 1])] + rest
  }

  /** The nodes up to the end marker of the innermost open group, and what follows that marker. */
  lemma {:induction false} TreesOf(fields: seq<ProtoField>, open: seq<U32>)
    returns (nodes: seq<Node>, rest: seq<ProtoField>)
    requires AllValid(fields) && ClosesGroups(fields, open)
    ensures Proper(nodes) && AllValid(rest)
    ensures fields == Flatten(nodes) + Ending(open, rest)
    ensures open != [] ==> ClosesGroups(rest, open[..|open| - 1]) && |rest| < |fields|
    decreases |fields|
  {
    nodes, rest := [], [];
    if fields != [] {
      var f, tail := fields[0], fields[1..];
      assert f in fields && f.Valid() && AllValid(tail) && fields == [f] + tail;
      hide AllValid;
      match f.wireType {
        case StartGroup =>
          var body, after := TreesOf(tail, open + [f.fieldNumber]);
          assert (open + [f.fieldNumber])[..|open|] == open;
          WrapGroup(f.fieldNumber, body, after, fields);
          nodes, rest := TreesOf(after, open);
          nodes := ConsTree(Group(f.fieldNumber, body), nodes, Ending(open, rest));
        case EndGroup =>
          assert f == EndMarker(open[|open| - 1]);
          rest := tail;
          assert Flatten([]) == [];
        case _ =>
          nodes, rest := TreesOf(tail, open);
          assert FlattenNode(Leaf(f)) == [f];
          nodes := ConsTree(Leaf(f), nodes, Ending(open, rest));
      }
    }
  }

  lemma WrapGroup(n: U32, body: seq<Node>, after: seq<ProtoField>, fields: seq<ProtoField>)
    requires fields == [StartMarker(n)] + (Flatten(body) + ([EndMarker(n)] + after))
    ensures fields == FlattenNode(Group(n, body)) + after
  {
    hide Flatten;
  }

  lemma ConsTree(node: Node, nodes: seq<Node>, suffix: seq<ProtoField>) returns (r: seq<Node>)
    requires ProperNode(node) && Proper(nodes)
    ensures r == [node] + nodes && Proper(r)
    ensures Flatten(r) + suffix == FlattenNode(node) + (Flatten(nodes) + suffix)
  {
    r := [node] + nodes;
    assert r[1..] == nodes;
  }

  lemma FirstOfTree(nodes: seq<Node>, rest: seq<ProtoField>)
    requires nodes != [] && Proper(nodes)
    ensures |Flatten(nodes) + rest| > 0 && (Flatten(nodes) + rest)[0].wireType != EndGroup
  {
  }

  lemma EmptyTree(nodes: seq<Node>, whole: seq<ProtoField>, rest: seq<ProtoField>)
    requires Proper(nodes) && Flatten([]) + whole == Flatten(nodes) + rest
    requires whole != [] ==> whole[0].wireType == EndGroup
    ensures nodes == [] && whole == rest
  {
    assert Flatten([]) + whole == whole;
    if nodes != [] {
      FirstOfTree(nodes, rest);
    } else {
      assert Flatten(nodes) + rest == rest;
    }
  }

  /** Two trees with the same fields are the same tree. */
  lemma {:induction false} FlattenInjective(a: seq<Node>, b: seq<Node>, ra: seq<ProtoField>, rb: seq<ProtoField>)
    requires Proper(a) && Proper(b) && Flatten(a) + ra == Flatten(b) + rb
    requires ra != [] ==> ra[0].wireType == EndGroup
    requires rb != [] ==> rb[0].wireType == EndGroup
    ensures a == b && ra == rb
    decreases a, 1
  {
    hide AllValid;
    if a == [] {
      EmptyTree(b, ra, rb);
    } else if b == [] {
      EmptyTree(a, rb, ra);
    } else {
      assert Flatten(a) + ra == FlattenNode(a[0]) + (Flatten(a[1..]) + ra);
      assert Flatten(b) + rb == FlattenNode(b[0]) + (Flatten(b[1..]) + rb);
      FlattenNodeInjective(a[0], b[0], Flatten(a[1..]) + ra, Flatten(b[1..]) + rb);
      FlattenInjective(a[1..], b[1..], ra, rb);
    }
  }

  lemma {:induction false} FlattenNodeInjective(a: Node, b: Node, ta: seq<ProtoField>, tb: seq<ProtoField>)
    requires ProperNode(a) && ProperNode(b) && FlattenNode(a) + ta == FlattenNode(b) + tb
    ensures a == b && ta == tb
    decreases a, 0
  {
    assert (FlattenNode(a) + ta)[0] == (FlattenNode(b) + tb)[0];
    if a.Leaf? {
      assert (FlattenNode(a) + ta)[1..] == ta && (FlattenNode(b) + tb)[1..] == tb;
    } else {
      var ea, eb := [EndMarker(a.number)] + ta, [EndMarker(a.number)] + tb;
      assert (FlattenNode(a) + ta)[1..] == Flatten(a.body) + ea;
      assert (FlattenNode(b) + tb)[1..] == Flatten(b.body) + eb;
      FlattenInjective(a.body, b.body, ea, eb);
      assert ea[1..] == ta && eb[1..] == tb;
    }
  }

  // ---------------------------------------------------------------- messages

  function EncodeTrees(nodes: seq<Node>): Bytes { Serialize(Flatten(nodes)) }

  predicate ValidTrees(nodes: seq<Node>) { Proper(nodes) && AllValid(Flatten(nodes)) }

  /** The bytes of a tree are a message, and reading them gives the fields of that tree. */
  lemma TreesAreMessages(nodes: seq<Node>)
    requires ValidTrees(nodes)
    ensures IsMessage(Canonical, EncodeTrees(nodes))
    ensures ReadFields(Canonical, EncodeTrees(nodes), 0) == Some(Flatten(nodes))
  {
    hide Serialize, Flatten;
    ReadFieldsInvertsSerialize(EncodeTrees(nodes), Flatten(nodes));
    TreesClose(nodes, [], []);
    assert Flatten(nodes) + [] == Flatten(nodes);
  }

  /** Every message is the bytes of a tree. */
  lemma MessagesAreTrees(data: Bytes) returns (nodes: seq<Node>)
    requires IsMessage(Canonical, data)
    ensures ValidTrees(nodes) && data == EncodeTrees(nodes)
  {
    var fields := ReadFields(Canonical, data, 0).value;
    ReadFieldsInvertsSerialize(data, fields);
    var rest;
    nodes, rest := TreesOf(fields, []);
    assert Flatten(nodes) + [] == Flatten(nodes);
  }

  /** And of one only. */
  lemma TreeIsUnique(a: seq<Node>, b: seq<Node>)
    requires ValidTrees(a) && ValidTrees(b) && EncodeTrees(a) == EncodeTrees(b)
    ensures a == b
  {
    TreesAreMessages(a);
    TreesAreMessages(b);
    FlattenInjective(a, b, [], []);
  }
}
