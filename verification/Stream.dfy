/**
 Columns and filters over the records of a file: they are read from a record reader, over any
 bytes, and the filtered ones go to a record writer.
 */
module ProtoStream {
  import opened Bytes
  import opened ChunkParsing
  import opened ProtoFields
  import opened ProtoTrees
  import opened MessageWriters
  import opened FieldIterators
  import opened ReaderSpec
  import opened Recovery
  import opened RecordReaders
  import opened RecordWriters
  import opened Cutting
  import LF = LooseFields
  import LV = LooseVarint
  import Wire

  // ---------------------------------------------------------------- columns

  /** The values of the varint fields with this number outside all groups, `depth` groups being open. */
  function TopLevelVarints(fields: seq<ProtoField>, fieldNumber: U32, depth: nat): seq<U64> {
    if fields == [] then []
    else
      var f := fields[0];
      match f.wireType
      case StartGroup => TopLevelVarints(fields[1..], fieldNumber, depth + 1)
      case EndGroup => TopLevelVarints(fields[1..], fieldNumber, if depth > 0 then depth - 1 else 0)
      case _ =>
        (if depth == 0 && f.fieldNumber == fieldNumber && f.value.VarintValue? then [f.value.varint] else [])
          + TopLevelVarints(fields[1..], fieldNumber, depth)
  }

  function RecordColumn(record: Bytes, fieldNumber: U32): seq<U64> {
    if IsMessage(Canonical, record) then TopLevelVarints(ReadFields(Canonical, record, 0).value, fieldNumber, 0) else []
  }

  function Column(records: seq<Bytes>, fieldNumber: U32): seq<U64> {
    if records == [] then [] else RecordColumn(records[0], fieldNumber) + Column(records[1..], fieldNumber)
  }

  /** What the first field adds to the column, and the depth after it. */
  function FirstVarint(f: ProtoField, fieldNumber: U32, depth: nat): seq<U64> {
    if !IsMarker(f) && depth == 0 && f.fieldNumber == fieldNumber && f.value.VarintValue? then [f.value.varint] else []
  }

  function DepthAfter(f: ProtoField, depth: nat): nat {
    match f.wireType
    case StartGroup => depth + 1
    case EndGroup => if depth > 0 then depth - 1 else 0
    case _ => depth
  }

  lemma NextField(rest: seq<ProtoField>, fieldNumber: U32, column: seq<U64>, depth: nat)
    ensures rest == [] ==> Yielded(rest) == [] && column + TopLevelVarints(rest, fieldNumber, depth) == column
    ensures rest != [] ==>
      && Yielded(rest) != [] && Yielded(rest)[0] == Item.Success(rest[0]) && Yielded(rest)[1..] == Yielded(rest[1..])
      && (column + FirstVarint(rest[0], fieldNumber, depth))
           + TopLevelVarints(rest[1..], fieldNumber, DepthAfter(rest[0], depth))
        == column + TopLevelVarints(rest, fieldNumber, depth)
  {
    if rest != [] {
      var tail := TopLevelVarints(rest[1..], fieldNumber, DepthAfter(rest[0], depth));
      FirstAndRest(rest, fieldNumber, depth);
      hide TopLevelVarints, FirstVarint, DepthAfter;
      assert column + (FirstVarint(rest[0], fieldNumber, depth) + tail)
        == (column + FirstVarint(rest[0], fieldNumber, depth)) + tail;
    }
  }

  lemma FirstAndRest(fields: seq<ProtoField>, fieldNumber: U32, depth: nat)
    requires fields != []
    ensures TopLevelVarints(fields, fieldNumber, depth)
      == FirstVarint(fields[0], fieldNumber, depth)
         + TopLevelVarints(fields[1..], fieldNumber, DepthAfter(fields[0], depth))
  {
  }

  lemma FieldsOfMessage(record: Bytes, fieldNumber: U32)
    requires IsMessage(Canonical, record)
    ensures var fields := ReadFields(Canonical, record, 0).value;
      && ItemsFrom(record, 0) == Yielded(fields)
      && RecordColumn(record, fieldNumber) == TopLevelVarints(fields, fieldNumber, 0)
  {
    ItemsAreFields(record, 0);
  }

  /** Takes one field into account. */
  method TakeField(field: ProtoField, fieldNumber: U32, column: seq<U64>, depth: nat)
    returns (values: seq<U64>, groupDepth: nat)
    ensures values == column + FirstVarint(field, fieldNumber, depth) && groupDepth == DepthAfter(field, depth)
  {
    values, groupDepth := column, depth;
    if field.wireType == StartGroup {
      groupDepth := groupDepth + 1;
    } else if field.wireType == EndGroup {
      groupDepth := if groupDepth > 0 then groupDepth - 1 else 0;
    } else if groupDepth == 0 && field.fieldNumber == fieldNumber && field.value.VarintValue? {
      values := values + [field.value.varint];
    }
  }

  /** The values of one record, appended to a column. */
  method ExtractRecord(record: Bytes, fieldNumber: U32, column: seq<U64>) returns (values: seq<U64>)
    requires IsMessage(Canonical, record)
    ensures values == column + RecordColumn(record, fieldNumber)
  {
    var iter := new ProtoFieldIter(record);
    ghost var rest := ReadFields(Canonical, record, 0).value;
    FieldsOfMessage(record, fieldNumber);
    hide *;
    values := column;
    var groupDepth: nat := 0;
    while true
      invariant fresh(iter) && iter.Rest() == Yielded(rest)
      invariant values + TopLevelVarints(rest, fieldNumber, groupDepth) == column + RecordColumn(record, fieldNumber)
      decreases |rest|
    {
      NextField(rest, fieldNumber, values, groupDepth);
      var next := iter.Next();
      if next.None? {
        break;
      }
      values, groupDepth := TakeField(next.value.value, fieldNumber, values, groupDepth);
      rest := rest[1..];
    }
  }

  lemma {:induction false} ColumnSnoc(records: seq<Bytes>, record: Bytes, fieldNumber: U32)
    ensures Column(records + [record], fieldNumber) == Column(records, fieldNumber) + RecordColumn(record, fieldNumber)
  {
    hide RecordColumn;
    if records == [] {
      assert [] + [record] == [record] && [record][1..] == [];
    } else {
      ColumnSnoc(records[1..], record, fieldNumber);
      assert (records + [record])[1..] == records[1..] + [record];
    }
  }

  /** Why working through the records stopped, and at which one. */
  datatype StreamError =
    | ReadFailed(recordIndex: nat)
    | NonCanonical(recordIndex: nat)
    | WriteFailed(recordIndex: nat)

  /** With these records read already, one more turn of reading. */
  lemma ReadOneMore(env: Env, cb: Option<Callback>, f: Bytes, s: Reader, done: seq<Bytes>)
    ensures var (s1, r) := ReaderSpec.ReadRecord(env, cb, f, s);
      After(done, ReadAll(env, cb, f, s)) ==
        if r.GotRecord? then After(done + [r.record], ReadAll(env, cb, f, s1)) else Drained(done, r, s1)
  {
    hide ReaderSpec.ReadRecord;
    var (s1, r) := ReaderSpec.ReadRecord(env, cb, f, s);
    if r.GotRecord? {
      var rest := ReadAll(env, cb, f, s1).records;
      assert done + ([r.record] + rest) == (done + [r.record]) + rest;
    } else {
      assert done + [] == done;
    }
  }

  lemma NoneReadYet(d: Drained)
    ensures After([], d) == d
  {
    assert [] + d.records == d.records;
  }

  /** The column of a field over all records; what is not a message contributes nothing. */
  method ExtractVarintColumn(reader: RecordReader, fieldNumber: U32) returns (r: Result<seq<U64>, StreamError>)
    requires reader.Valid()
    modifies reader
    ensures reader.Valid() && reader.source == old(reader.source)
    ensures var d := ReadAll(reader.env, reader.recovery, reader.source, old(reader.State()));
      && reader.State() == d.reader
      && r == if d.last.EndOfFile? then Success(Column(d.records, fieldNumber)) else Failure(ReadFailed(|d.records|))
  {
    hide IsMessage, RecordColumn, Column, ReaderSpec.ReadRecord, ReadAll;
    var values: seq<U64> := [];
    var recordIndex: nat := 0;
    ghost var done: seq<Bytes> := [];
    ghost var d := ReadAll(reader.env, reader.recovery, reader.source, reader.State());
    NoneReadYet(d);
    NoColumn([], fieldNumber);
    while true
      invariant reader.Valid() && reader.source == old(reader.source)
      invariant After(done, ReadAll(reader.env, reader.recovery, reader.source, reader.State())) == d
      invariant recordIndex == |done| && values == Column(done, fieldNumber)
      decreases |d.records| - |done|
    {
      ReadOneMore(reader.env, reader.recovery, reader.source, reader.State(), done);
      var read := reader.ReadRecord();
      if read.ReadError? {
        return Failure(ReadFailed(recordIndex));
      }
      if read.EndOfFile? {
        return Success(values);
      }
      var record := read.record;
      ColumnSnoc(done, record, fieldNumber);
      var isMessage := Wire.ValidateMessage(Canonical, record);
      if isMessage {
        values := ExtractRecord(record, fieldNumber, values);
      } else {
        NoRecordColumn(values, record, fieldNumber);
      }
      done := done + [record];
      recordIndex := recordIndex + 1;
    }
  }

  lemma NoColumn(records: seq<Bytes>, fieldNumber: U32)
    requires records == []
    ensures Column(records, fieldNumber) == []
  {
  }

  lemma NoRecordColumn(values: seq<U64>, record: Bytes, fieldNumber: U32)
    requires !IsMessage(Canonical, record)
    ensures RecordColumn(record, fieldNumber) == [] && values + RecordColumn(record, fieldNumber) == values
  {
  }

  /** The values of the top-level varint nodes with this number. */
  function NodeColumn(nodes: seq<Node>, fieldNumber: U32): seq<U64> {
    if nodes == [] then []
    else
      (if nodes[0].Leaf? && nodes[0].Number() == fieldNumber && nodes[0].field.value.VarintValue?
       then [nodes[0].field.value.varint] else [])
        + NodeColumn(nodes[1..], fieldNumber)
  }

  lemma {:induction false} NothingInsideGroups(nodes: seq<Node>, rest: seq<ProtoField>, fieldNumber: U32, depth: nat)
    requires Proper(nodes) && depth > 0
    ensures TopLevelVarints(Flatten(nodes) + rest, fieldNumber, depth) == TopLevelVarints(rest, fieldNumber, depth)
    decreases nodes, 1
  {
    if nodes == [] {
      assert Flatten(nodes) + rest == rest;
    } else {
      var tail := Flatten(nodes[1..]) + rest;
      assert Flatten(nodes) + rest == FlattenNode(nodes[0]) + tail;
      match nodes[0] {
        case Leaf(f) => assert ([f] + tail)[1..] == tail;
        case Group(n, body) => NothingInGroup(n, body, tail, fieldNumber, depth);
      }
      NothingInsideGroups(nodes[1..], rest, fieldNumber, depth);
    }
  }

  lemma {:induction false} NothingInGroup(n: U32, body: seq<Node>, rest: seq<ProtoField>, fieldNumber: U32, depth: nat)
    requires Proper(body)
    ensures TopLevelVarints(FlattenNode(Group(n, body)) + rest, fieldNumber, depth)
      == TopLevelVarints(rest, fieldNumber, depth)
    decreases body, 2
  {
    var end := [EndMarker(n)] + rest;
    assert FlattenNode(Group(n, body)) + rest == [StartMarker(n)] + (Flatten(body) + end);
    assert ([StartMarker(n)] + (Flatten(body) + end))[1..] == Flatten(body) + end;
    NothingInsideGroups(body, end, fieldNumber, depth + 1);
    assert end[1..] == rest;
  }

  /** A column holds the values of the top-level nodes; a field inside a group is another field. */
  lemma {:induction false} ColumnOfTrees(nodes: seq<Node>, fieldNumber: U32)
    requires Proper(nodes)
    ensures TopLevelVarints(Flatten(nodes), fieldNumber, 0) == NodeColumn(nodes, fieldNumber)
  {
    if nodes != [] {
      var tail := Flatten(nodes[1..]);
      match nodes[0] {
        case Leaf(f) => assert ([f] + tail)[1..] == tail;
        case Group(n, body) => NothingInGroup(n, body, tail, fieldNumber, 0);
      }
      ColumnOfTrees(nodes[1..], fieldNumber);
    }
  }

  lemma {:induction false} ColumnOfKept(nodes: seq<Node>, allowed: seq<U32>, fieldNumber: U32)
    ensures NodeColumn(Keep(nodes, allowed), fieldNumber) ==
      if fieldNumber in allowed then NodeColumn(nodes, fieldNumber) else []
  {
    if nodes != [] {
      ColumnOfKept(nodes[1..], allowed, fieldNumber);
      if nodes[0].Number() in allowed {
        assert Keep(nodes, allowed)[1..] == Keep(nodes[1..], allowed);
      } else {
        assert Keep(nodes, allowed) == Keep(nodes[1..], allowed);
      }
    }
  }

  lemma ColumnOfMessage(nodes: seq<Node>, fieldNumber: U32)
    requires ValidTrees(nodes)
    ensures RecordColumn(EncodeTrees(nodes), fieldNumber) == NodeColumn(nodes, fieldNumber)
  {
    hide ReadFields, Flatten, EncodeTrees, IsMessage;
    TreesAreMessages(nodes);
    ColumnOfTrees(nodes, fieldNumber);
  }

  // ---------------------------------------------------------------- filters

  /**
   What filtering makes of a record: a message loses fields, a message only permissive parsers read is
   refused, anything else passes.
   */
  function FilterRecord(record: Bytes, allowed: seq<U32>): Option<Bytes> {
    if IsMessage(Canonical, record) then Some(CopiedBytes(record, allowed))
    else if IsMessage(Permissive, record) then None
    else Some(record)
  }

  /** The filtered records, if none is refused. */
  function FilterAll(records: seq<Bytes>, allowed: seq<U32>): Option<seq<Bytes>> {
    if records == [] then Some([])
    else
      match FilterRecord(records[0], allowed)
      case None => None
      case Some(r) =>
        match FilterAll(records[1..], allowed)
        case None => None
        case Some(rs) => Some([r] + rs)
  }

  method FilterMessage(record: Bytes, fieldNumbers: seq<U32>) returns (filtered: Bytes)
    requires IsMessage(Canonical, record)
    ensures filtered == CopiedBytes(record, fieldNumbers)
  {
    hide ItemsFrom, FilterItems, Represents, IsMessage, Serialize;
    var msgWriter := new SerializedMessageWriter();
    CopyTwiceIsIntersection(record, fieldNumbers, []);
    var copied := CopyFields(record, fieldNumbers, msgWriter);
    var finished := msgWriter.Finish();
    filtered := finished.value;
  }

  lemma {:induction false} KeepingShortens(nodes: seq<Node>, allowed: seq<U32>)
    ensures |EncodeTrees(Keep(nodes, allowed))| <= |EncodeTrees(nodes)|
  {
    hide SerializeField;
    if nodes != [] {
      KeepingShortens(nodes[1..], allowed);
      SerializeConcat(FlattenNode(nodes[0]), Flatten(nodes[1..]));
      if nodes[0].Number() in allowed {
        assert Keep(nodes, allowed)[1..] == Keep(nodes[1..], allowed);
        SerializeConcat(FlattenNode(nodes[0]), Flatten(Keep(nodes[1..], allowed)));
      } else {
        assert Keep(nodes, allowed) == Keep(nodes[1..], allowed);
      }
    }
  }

  lemma FilteringShortens(record: Bytes, allowed: seq<U32>)
    requires IsMessage(Canonical, record)
    ensures |CopiedBytes(record, allowed)| <= |record|
  {
    hide IsMessage, ItemsFrom, FilterItems, EncodeTrees, ValidTrees, Keep, Copied, Serialize;
    var nodes := MessagesAreTrees(record);
    CopyKeepsChosenNodes(nodes, allowed);
    KeepingShortens(nodes, allowed);
  }

  lemma {:induction false} FilterSnoc(records: seq<Bytes>, record: Bytes, allowed: seq<U32>)
    requires FilterAll(records, allowed).Some?
    ensures FilterAll(records + [record], allowed) ==
      if FilterRecord(record, allowed).None? then None
      else Some(FilterAll(records, allowed).value + [FilterRecord(record, allowed).value])
  {
    hide FilterRecord;
    var last := FilterRecord(record, allowed);
    if records == [] {
      assert [] + [record] == [record] && [record][1..] == [];
      if last.Some? {
        assert [last.value] + [] == [] + [last.value];
      }
    } else {
      FilterSnoc(records[1..], record, allowed);
      assert (records + [record])[1..] == records[1..] + [record];
      if last.Some? {
        var first, rest := FilterRecord(records[0], allowed).value, FilterAll(records[1..], allowed).value;
        assert [first] + (rest + [last.value]) == ([first] + rest) + [last.value];
      }
    }
  }

  /** What the writer has accepted when the filter has dealt with the first `k` of the records. */
  ghost predicate WrittenSoFar(records: seq<Bytes>, k: nat, allowed: seq<U32>, before: seq<Bytes>, after: seq<Bytes>) {
    && k <= |records| && FilterAll(records[..k], allowed).Some?
    && after == before + FilterAll(records[..k], allowed).value
  }

  /** How filtering the records into a writer may end. */
  ghost predicate FilterEnds(d: Drained, allowed: seq<U32>, before: seq<Bytes>,
                             after: seq<Bytes>, r: Option<StreamError>) {
    match r
    case None => d.last == EndOfFile && WrittenSoFar(d.records, |d.records|, allowed, before, after)
    case Some(ReadFailed(k)) => d.last == ReadError && k == |d.records|
      && WrittenSoFar(d.records, k, allowed, before, after)
    case Some(NonCanonical(k)) =>
      && k < |d.records| && !IsMessage(Canonical, d.records[k]) && IsMessage(Permissive, d.records[k])
      && WrittenSoFar(d.records, k, allowed, before, after)
    case Some(WriteFailed(k)) =>
      && k < |d.records| && FilterRecord(d.records[k], allowed).Some?
      && (|| WrittenSoFar(d.records, k, allowed, before, after)
          || WrittenSoFar(d.records, k + 1, allowed, before, after))
  }

  lemma NothingWritten(d: Drained, allowed: seq<U32>, before: seq<Bytes>)
    ensures WrittenSoFar(d.records, 0, allowed, before, before)
  {
    assert d.records[..0] == [] && before + [] == before;
  }

  /** What one more call of the reader means for the filter: the end, or a record to refuse or to write. */
  lemma FilterTurn(d: Drained, done: seq<Bytes>, read: ReadResult, rest: Drained, allowed: seq<U32>,
                   before: seq<Bytes>, after: seq<Bytes>)
    requires WrittenSoFar(d.records, |done|, allowed, before, after)
    requires d == if read.GotRecord? then After(done + [read.record], rest) else Drained(done, read, rest.reader)
    ensures read.EndOfFile? ==> FilterEnds(d, allowed, before, after, None)
    ensures read.ReadError? ==> FilterEnds(d, allowed, before, after, Some(ReadFailed(|done|)))
    ensures read.GotRecord? ==> |done| < |d.records| && d.records[|done|] == read.record
    ensures read.GotRecord? && FilterRecord(read.record, allowed).None? ==>
      FilterEnds(d, allowed, before, after, Some(NonCanonical(|done|)))
    ensures read.GotRecord? && FilterRecord(read.record, allowed).Some? ==>
      var after' := after + [FilterRecord(read.record, allowed).value];
      && WrittenSoFar(d.records, |done| + 1, allowed, before, after')
      && FilterEnds(d, allowed, before, after, Some(WriteFailed(|done|)))
      && FilterEnds(d, allowed, before, after', Some(WriteFailed(|done|)))
  {
    hide IsMessage, CopiedBytes, FilterAll;
    if read.GotRecord? {
      assert d.records[..|done|] == done && d.records[..|done| + 1] == done + [read.record];
      FilterSnoc(done, read.record, allowed);
      if FilterRecord(read.record, allowed).Some? {
        var all, out := FilterAll(done, allowed).value, FilterRecord(read.record, allowed).value;
        assert before + (all + [out]) == (before + all) + [out];
      }
    }
  }

  /**
   Filters every record into the writer, up to the first that cannot be read, is refused or cannot
   be written. No record is longer than a slice can be.
   */
  method FilterFieldsToWriter(reader: RecordReader, writer: RecordWriter, fieldNumbers: seq<U32>)
    returns (r: Option<StreamError>)
    requires reader.Valid() && writer.Valid()
    requires var d := ReadAll(reader.env, reader.recovery, reader.source, reader.State());
      forall record | record in d.records :: |record| <= MAX_RECORD
    modifies reader, writer, writer.encoder, writer.sink
    ensures reader.Valid() && writer.Valid() && reader.source == old(reader.source)
    ensures var d := ReadAll(reader.env, reader.recovery, reader.source, old(reader.State()));
      FilterEnds(d, fieldNumbers, old(writer.written), writer.written, r)
    ensures r.Some? && r.value.WriteFailed? ==> old(writer.closed) || writer.failed
  {
    hide IsMessage, CopiedBytes, writer.Valid, writer.Accepts, FilterEnds, ReaderSpec.ReadRecord, ReadAll,
         WrittenSoFar;
    var recordIndex: nat := 0;
    ghost var done: seq<Bytes> := [];
    ghost var start := writer.written;
    ghost var d := ReadAll(reader.env, reader.recovery, reader.source, reader.State());
    NoneReadYet(d);
    NothingWritten(d, fieldNumbers, start);
    while true
      invariant reader.Valid() && reader.source == old(reader.source)
      invariant writer.Valid() && writer.closed == old(writer.closed)
      invariant writer.encoder == old(writer.encoder) || fresh(writer.encoder)
      invariant After(done, ReadAll(reader.env, reader.recovery, reader.source, reader.State())) == d
      invariant recordIndex == |done| && WrittenSoFar(d.records, |done|, fieldNumbers, start, writer.written)
      decreases |d.records| - |done|
    {
      ReadOneMore(reader.env, reader.recovery, reader.source, reader.State(), done);
      var read := reader.ReadRecord();
      ghost var rest := ReadAll(reader.env, reader.recovery, reader.source, reader.State());
      FilterTurn(d, done, read, if read.GotRecord? then rest else d, fieldNumbers, start, writer.written);
      if read.ReadError? {
        return Some(ReadFailed(recordIndex));
      }
      if read.EndOfFile? {
        return None;
      }
      var record := read.record;
      var isMessage := Wire.ValidateMessage(Canonical, record);
      var out := record;
      if isMessage {
        out := FilterMessage(record, fieldNumbers);
        FilteringShortens(record, fieldNumbers);
      } else {
        var parseable := Wire.ValidateMessage(Permissive, record);
        if parseable {
          return Some(NonCanonical(recordIndex));
        }
      }
      var ok := writer.WriteRecord(out);
      if !ok {
        return Some(WriteFailed(recordIndex));
      }
      done := done + [record];
      recordIndex := recordIndex + 1;
    }
  }

  // ---------------------------------------------------------------- what filtering keeps and drops

  /**
   A record that passed the filter is a message whose top-level fields are all allowed, or nothing any parser
   would read fields from.
   */
  lemma NothingElseIsKept(record: Bytes, allowed: seq<U32>) returns (nodes: seq<Node>)
    requires FilterRecord(record, allowed).Some?
    ensures var out := FilterRecord(record, allowed).value;
      if IsMessage(Permissive, record) then
        && ValidTrees(nodes) && out == EncodeTrees(nodes)
        && forall node | node in nodes :: node.Number() in allowed
      else out == record && !IsMessage(Canonical, out)
  {
    hide ItemsFrom, FilterItems, EncodeTrees, ValidTrees, IsMessage, ReadFields, Serialize, Copied, Keep;
    CanonicalMessageIsPermissive(record);
    nodes := [];
    if IsMessage(Canonical, record) {
      var all := MessagesAreTrees(record);
      CopyKeepsChosenNodes(all, allowed);
      KeptIsValid(all, allowed);
      nodes := Keep(all, allowed);
    }
  }

  /** A record is refused exactly when permissive parsers read it but writing what they read gives other bytes. */
  lemma RefusedExactly(record: Bytes, allowed: seq<U32>)
    ensures FilterRecord(record, allowed).None? <==>
      IsMessage(Permissive, record) && Serialize(ReadFields(Permissive, record, 0).value) != record
  {
    hide IsMessage, CopiedBytes;
    CanonicalMessageIsPermissive(record);
  }

  /**
   Whatever the fields of a message, written with any tag, varint or length longer than it need
   be the record is refused, and written with all of them as short as possible it is not.
   */
  lemma OverlongIsRefused(fields: seq<ProtoField>, ws: seq<LF.Widths>, allowed: seq<U32>)
    requires AllValid(fields) && ClosesGroups(fields, []) && |ws| == |fields| && LF.AllFit(fields, ws)
    ensures FilterRecord(LF.SpellAll(fields, ws), allowed).None? <==>
      exists i :: 0 <= i < |fields| && LF.Overlong(fields[i], ws[i])
  {
    hide IsMessage, CopiedBytes, AllValid, ClosesGroups, LF.AllFit, LF.SpellAll, LF.Overlong;
    LF.OverlongIsPermissiveOnly(fields, ws);
  }

  /** A tag in two bytes where one would do: permissive parsers read the field, so the filter must refuse it. */
  lemma OverlongTagExample(allowed: seq<U32>)
    ensures ReadFields(Permissive, [0x88, 0x00, 0x05], 0) == Some([ProtoField(1, Varint, VarintValue(5))])
    ensures FilterRecord([0x88, 0x00, 0x05], allowed) == None
  {
    hide IsMessage, CopiedBytes;
    var fields, ws := [ProtoField(1, Varint, VarintValue(5))], [LF.Widths(2, 1)];
    assert LV.Padded(8, 2) == [0x88, 0x00] && LV.Padded(5, 1) == [0x05];
    assert fields[1..] == [] && ws[1..] == [];
    assert LF.SpellAll(fields, ws) == LF.Spell(fields[0], ws[0]) == [0x88, 0x00, 0x05];
    LF.OverlongIsPermissiveOnly(fields, ws);
    OverlongIsRefused(fields, ws, allowed);
    assert LF.Overlong(fields[0], ws[0]);
  }

  lemma FilteredColumn(record: Bytes, allowed: seq<U32>, fieldNumber: U32)
    requires FilterRecord(record, allowed).Some?
    ensures RecordColumn(FilterRecord(record, allowed).value, fieldNumber)
      == if fieldNumber in allowed then RecordColumn(record, fieldNumber) else []
  {
    hide ItemsFrom, FilterItems, EncodeTrees, ValidTrees, IsMessage, Serialize, Copied, RecordColumn, Keep, NodeColumn;
    if IsMessage(Canonical, record) {
      var nodes := MessagesAreTrees(record);
      CopyKeepsChosenNodes(nodes, allowed);
      KeptIsValid(nodes, allowed);
      ColumnOfMessage(nodes, fieldNumber);
      ColumnOfMessage(Keep(nodes, allowed), fieldNumber);
      ColumnOfKept(nodes, allowed, fieldNumber);
    } else {
      NoRecordColumn([], record, fieldNumber);
    }
  }

  /**
   The column of a field that is kept is the same before and after filtering; that of any other field is
   empty after.
   */
  lemma {:induction false} ColumnSurvivesFiltering(records: seq<Bytes>, allowed: seq<U32>, fieldNumber: U32)
    requires FilterAll(records, allowed).Some?
    ensures Column(FilterAll(records, allowed).value, fieldNumber)
      == if fieldNumber in allowed then Column(records, fieldNumber) else []
  {
    hide FilterRecord, RecordColumn;
    if records != [] {
      FilteredColumn(records[0], allowed, fieldNumber);
      ColumnSurvivesFiltering(records[1..], allowed, fieldNumber);
      var r, rs := FilterRecord(records[0], allowed).value, FilterAll(records[1..], allowed).value;
      assert ([r] + rs)[1..] == rs;
    }
  }

  /**
   Filtering by one set and then by another never refuses a record and is filtering by what the sets have in
   common.
   */
  lemma {:induction false} FilterTwice(records: seq<Bytes>, a: seq<U32>, b: seq<U32>)
    requires FilterAll(records, a).Some?
    ensures FilterAll(FilterAll(records, a).value, b) == FilterAll(records, Intersection(a, b))
  {
    hide FilterRecord, Intersection;
    if records != [] {
      FilterRecordTwice(records[0], a, b);
      FilterTwice(records[1..], a, b);
      var r, rs := FilterRecord(records[0], a).value, FilterAll(records[1..], a).value;
      assert ([r] + rs)[1..] == rs;
    }
  }

  lemma FilterRecordTwice(record: Bytes, a: seq<U32>, b: seq<U32>)
    requires FilterRecord(record, a).Some?
    ensures FilterRecord(FilterRecord(record, a).value, b) == FilterRecord(record, Intersection(a, b))
    ensures FilterRecord(record, Intersection(a, b)).Some?
  {
    hide IsMessage, CopiedBytes, Intersection, NoError, ItemsFrom, FilterItems;
    if IsMessage(Canonical, record) {
      CopyTwiceIsIntersection(record, a, b);
    }
  }
}
