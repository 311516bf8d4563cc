/** The record serializers, field by field as the records list them. */
module Records {
  import opened Words
  import opened Bytes
  import opened Interning
  import opened Wire
  import opened Serialize
  import opened Lookup

  // The structs.

  datatype TraceMetadata = TraceMetadata(traceId: int, threadId: int, sessionId: CString, hostname: CString,
                                         parentTraceId: int, parentOrderId: int, nextOrderId: int)

  datatype OperationEvent = OperationEvent(timestamp: int, traceId: int, orderIndex: int,
                                           operationSignature: CString, classSignature: CString)

  datatype OperationExecution = OperationExecution(operationSignature: CString, sessionId: CString, traceId: int,
                                                   tin: int, tout: int, hostname: CString, eoi: int, ess: int)

  datatype KiekerMetadata = KiekerMetadata(version: CString, controllerName: CString, hostname: CString,
                                           experimentId: int, debugMode: int, timeOffset: int, timeUnit: CString,
                                           numberOfRecords: int)

  // Their fields on the wire.  The next order id of a trace is not among them.

  function MetadataFields(r: TraceMetadata): seq<Field>
  {
    [Num(Int64, r.traceId), Num(Int64, r.threadId), Str(r.sessionId), Str(r.hostname), Num(Int64, r.parentTraceId),
     Num(Int32, r.parentOrderId)]
  }

  function EventFields(r: OperationEvent): seq<Field>
  {
    [Num(Int64, r.timestamp), Num(Int64, r.traceId), Num(Int32, r.orderIndex), Str(r.operationSignature),
     Str(r.classSignature)]
  }

  function ExecutionFields(r: OperationExecution): seq<Field>
  {
    [Str(r.operationSignature), Str(r.sessionId), Num(Int64, r.traceId), Num(Int64, r.tin), Num(Int64, r.tout),
     Str(r.hostname), Num(Int32, r.eoi), Num(Int32, r.ess)]
  }

  function KiekerFields(r: KiekerMetadata): seq<Field>
  {
    [Str(r.version), Str(r.controllerName), Str(r.hostname), Num(Int32, r.experimentId), Num(Boolean, r.debugMode),
     Num(Int64, r.timeOffset), Str(r.timeUnit), Num(Int64, r.numberOfRecords)]
  }

  /** What any of the serializers may be called on. */
  ghost predicate Ready(lookup: StringTable, buffer: array<Byte>)
    reads lookup
  {
    lookup.Valid() && buffer != lookup.controller.stringBuffer
  }

  // One field: `position += kieker_serialize_...(buffer, position, value)`.

  method AppendBoolean(lookup: StringTable, buffer: array<Byte>, position: nat, value: int) returns (next: nat)
    requires Ready(lookup, buffer) && position + 1 <= buffer.Length
    modifies buffer
    ensures next == position + 1
    ensures lookup.OutAt(buffer, next) == Put(Num(Boolean, value), old(lookup.OutAt(buffer, position)))
    ensures forall i :: next <= i < buffer.Length ==> buffer[i] == old(buffer[i])
  {
    hide IntBytes;
    var n := SerializeInt8(buffer, position, value);
    next := position + n;
    forall i | next <= i < buffer.Length
      ensures buffer[i] == old(buffer[i])
    {
      assert buffer[next..][i - next] == old(buffer[next..])[i - next];
    }
  }

  method AppendInt32(lookup: StringTable, buffer: array<Byte>, position: nat, value: int) returns (next: nat)
    requires Ready(lookup, buffer) && position + 4 <= buffer.Length
    modifies buffer
    ensures next == position + 4
    ensures lookup.OutAt(buffer, next) == Put(Num(Int32, value), old(lookup.OutAt(buffer, position)))
    ensures forall i :: next <= i < buffer.Length ==> buffer[i] == old(buffer[i])
  {
    hide IntBytes;
    var n := SerializeInt32(buffer, position, value);
    next := position + n;
    forall i | next <= i < buffer.Length
      ensures buffer[i] == old(buffer[i])
    {
      assert buffer[next..][i - next] == old(buffer[next..])[i - next];
    }
  }

  method AppendInt64(lookup: StringTable, buffer: array<Byte>, position: nat, value: int) returns (next: nat)
    requires Ready(lookup, buffer) && position + 8 <= buffer.Length
    modifies buffer
    ensures next == position + 8
    ensures lookup.OutAt(buffer, next) == Put(Num(Int64, value), old(lookup.OutAt(buffer, position)))
    ensures forall i :: next <= i < buffer.Length ==> buffer[i] == old(buffer[i])
  {
    hide IntBytes;
    var n := SerializeInt64(buffer, position, value);
    next := position + n;
    forall i | next <= i < buffer.Length
      ensures buffer[i] == old(buffer[i])
    {
      assert buffer[next..][i - next] == old(buffer[next..])[i - next];
    }
  }

  method AppendString(lookup: StringTable, buffer: array<Byte>, position: nat, s: CString) returns (next: nat)
    requires Ready(lookup, buffer) && position + 4 <= buffer.Length
    modifies lookup, lookup.stringList, lookup.controller`socket, lookup.controller.stringBuffer, buffer
    ensures Ready(lookup, buffer) && (lookup.stringList == old(lookup.stringList) || fresh(lookup.stringList))
    ensures next == position + 4
    ensures lookup.OutAt(buffer, next) == Put(Str(s), old(lookup.OutAt(buffer, position)))
    ensures forall i :: next <= i < buffer.Length ==> buffer[i] == old(buffer[i])
  {
    hide Put;
    var n := lookup.SerializeString(buffer, position, s);
    next := position + n;
    forall i | next <= i < buffer.Length
      ensures buffer[i] == old(buffer[i])
    {
      assert buffer[next..][i - next] == old(buffer[next..])[i - next];
    }
  }

  // Whole records.

  /** kieker_common_record_controlflow_operation_execution_record_serialize. */
  method SerializeExecution(lookup: StringTable, buffer: array<Byte>, offset: nat, value: OperationExecution)
    returns (position: nat)
    requires Ready(lookup, buffer) && offset + 44 <= buffer.Length
    modifies lookup, lookup.stringList, lookup.controller`socket, lookup.controller.stringBuffer, buffer
    ensures Ready(lookup, buffer) && (lookup.stringList == old(lookup.stringList) || fresh(lookup.stringList))
    ensures position == offset + 44
    ensures lookup.OutAt(buffer, position) == PutAll(ExecutionFields(value), old(lookup.OutAt(buffer, offset)))
    ensures forall i :: position <= i < buffer.Length ==> buffer[i] == old(buffer[i])
  {
    hide Put, PutAll;
    ghost var out := lookup.OutAt(buffer, offset);
    position := AppendString(lookup, buffer, offset, value.operationSignature);
    position := AppendString(lookup, buffer, position, value.sessionId);
    position := AppendInt64(lookup, buffer, position, value.traceId);
    position := AppendInt64(lookup, buffer, position, value.tin);
    position := AppendInt64(lookup, buffer, position, value.tout);
    position := AppendString(lookup, buffer, position, value.hostname);
    position := AppendInt32(lookup, buffer, position, value.eoi);
    position := AppendInt32(lookup, buffer, position, value.ess);
    PutEight(ExecutionFields(value), out);
  }

  /** kieker_common_record_misc_kieker_metadata_record_serialize; the fields behind the boolean are unaligned. */
  method SerializeKieker(lookup: StringTable, buffer: array<Byte>, offset: nat, value: KiekerMetadata)
    returns (position: nat)
    requires Ready(lookup, buffer) && offset + 37 <= buffer.Length
    modifies lookup, lookup.stringList, lookup.controller`socket, lookup.controller.stringBuffer, buffer
    ensures Ready(lookup, buffer) && (lookup.stringList == old(lookup.stringList) || fresh(lookup.stringList))
    ensures position == offset + 37
    ensures lookup.OutAt(buffer, position) == PutAll(KiekerFields(value), old(lookup.OutAt(buffer, offset)))
    ensures forall i :: position <= i < buffer.Length ==> buffer[i] == old(buffer[i])
  {
    hide Put, PutAll;
    ghost var out := lookup.OutAt(buffer, offset);
    position := AppendString(lookup, buffer, offset, value.version);
    position := AppendString(lookup, buffer, position, value.controllerName);
    position := AppendString(lookup, buffer, position, value.hostname);
    position := AppendInt32(lookup, buffer, position, value.experimentId);
    position := AppendBoolean(lookup, buffer, position, value.debugMode);
    position := AppendInt64(lookup, buffer, position, value.timeOffset);
    position := AppendString(lookup, buffer, position, value.timeUnit);
    position := AppendInt64(lookup, buffer, position, value.numberOfRecords);
    PutEight(KiekerFields(value), out);
  }

  /** kieker_common_record_flow_trace_trace_metadata_serialize. */
  method SerializeTraceMetadata(lookup: StringTable, buffer: array<Byte>, offset: nat, value: TraceMetadata)
    returns (position: nat)
    requires Ready(lookup, buffer) && offset + 36 <= buffer.Length
    modifies lookup, lookup.stringList, lookup.controller`socket, lookup.controller.stringBuffer, buffer
    ensures Ready(lookup, buffer) && (lookup.stringList == old(lookup.stringList) || fresh(lookup.stringList))
    ensures position == offset + 36
    ensures lookup.OutAt(buffer, position) == PutAll(MetadataFields(value), old(lookup.OutAt(buffer, offset)))
    ensures forall i :: position <= i < buffer.Length ==> buffer[i] == old(buffer[i])
  {
    hide Put, PutAll;
    ghost var out := lookup.OutAt(buffer, offset);
    position := AppendInt64(lookup, buffer, offset, value.traceId);
    position := AppendInt64(lookup, buffer, position, value.threadId);
    position := AppendString(lookup, buffer, position, value.sessionId);
    position := AppendString(lookup, buffer, position, value.hostname);
    position := AppendInt64(lookup, buffer, position, value.parentTraceId);
    position := AppendInt32(lookup, buffer, position, value.parentOrderId);
    PutSix(MetadataFields(value), out);
  }

  /** The serializers of BeforeOperationEvent and AfterOperationEvent, which lay out the same fields. */
  method SerializeOperationEvent(lookup: StringTable, buffer: array<Byte>, offset: nat, value: OperationEvent)
    returns (position: nat)
    requires Ready(lookup, buffer) && offset + 28 <= buffer.Length
    modifies lookup, lookup.stringList, lookup.controller`socket, lookup.controller.stringBuffer, buffer
    ensures Ready(lookup, buffer) && (lookup.stringList == old(lookup.stringList) || fresh(lookup.stringList))
    ensures position == offset + 28
    ensures lookup.OutAt(buffer, position) == PutAll(EventFields(value), old(lookup.OutAt(buffer, offset)))
    ensures forall i :: position <= i < buffer.Length ==> buffer[i] == old(buffer[i])
  {
    hide Put, PutAll;
    ghost var out := lookup.OutAt(buffer, offset);
    position := AppendInt64(lookup, buffer, offset, value.timestamp);
    position := AppendInt64(lookup, buffer, position, value.traceId);
    position := AppendInt32(lookup, buffer, position, value.orderIndex);
    position := AppendString(lookup, buffer, position, value.operationSignature);
    position := AppendString(lookup, buffer, position, value.classSignature);
    PutFive(EventFields(value), out);
  }

  lemma PutEight(fs: seq<Field>, out: Out)
    requires |fs| == 8
    ensures PutAll(fs, out) ==
            Put(fs[7], Put(fs[6], Put(fs[5], Put(fs[4], Put(fs[3], Put(fs[2], Put(fs[1], Put(fs[0], out))))))))
  {
    hide PutAll, Put;
    PutThree(fs[5..], PutAll(fs[..5], out));
    PutFive(fs[..5], out);
    PutAllAppend(fs[..5], fs[5..], out);
    assert fs[..5] + fs[5..] == fs;
  }

  lemma PutThree(fs: seq<Field>, out: Out)
    requires |fs| == 3
    ensures PutAll(fs, out) == Put(fs[2], Put(fs[1], Put(fs[0], out)))
  {
    hide PutAll, Put;
    var a, b := Put(fs[0], out), Put(fs[1], Put(fs[0], out));
    PutFirst(fs, out);
    PutFirst(fs[1..], a);
    PutFirst(fs[2..], b);
    assert fs[1..][1..] == fs[2..] && fs[2..][1..] == fs[3..] && fs[3..] == [];
    PutNothing(Put(fs[2], b));
  }

  lemma PutFirst(fs: seq<Field>, out: Out)
    requires fs != []
    ensures PutAll(fs, out) == PutAll(fs[1..], Put(fs[0], out))
  {}

  lemma PutNothing(out: Out)
    ensures PutAll([], out) == out
  {}

  lemma PutFive(fs: seq<Field>, out: Out)
    requires |fs| == 5
    ensures PutAll(fs, out) == Put(fs[4], Put(fs[3], Put(fs[2], Put(fs[1], Put(fs[0], out)))))
  {
    hide PutAll, Put;
    PutFirst(fs, out);
    PutFirst(fs[1..], Put(fs[0], out));
    assert fs[1..][1..] == fs[2..];
    PutThree(fs[2..], Put(fs[1], Put(fs[0], out)));
  }

  lemma PutSix(fs: seq<Field>, out: Out)
    requires |fs| == 6
    ensures PutAll(fs, out) == Put(fs[5], Put(fs[4], Put(fs[3], Put(fs[2], Put(fs[1], Put(fs[0], out))))))
  {
    hide PutAll, Put;
    PutThree(fs[..3], out);
    PutThree(fs[3..], PutAll(fs[..3], out));
    PutAllAppend(fs[..3], fs[3..], out);
    assert fs[..3] + fs[3..] == fs;
  }

  lemma PutTwo(a: Field, b: Field, fs: seq<Field>, out: Out)
    ensures PutAll([a, b] + fs, out) == PutAll(fs, Put(b, Put(a, out)))
  {}

  /** The codec round trip of any serialized record: behind whatever the buffer held, the fields come back as a reader
      sees them, in exactly the bytes their kinds take, whatever the values. */
  lemma SerializedReadsBack(fs: seq<Field>, out: Out, rest: seq<Byte>)
    requires AllProper(fs) && |PutAll(fs, out).table| <= INT32_LIMIT
    ensures var r := PutAll(fs, out);
            && out.buffer <= r.buffer && |r.buffer| == |out.buffer| + TotalWidth(Kinds(fs))
            && DecodeFields(Kinds(fs), r.buffer[|out.buffer|..] + rest, r.table) == Some((Views(fs), rest))
  {
    hide PutAll, DecodeFields, Kinds, Views, FieldsBytes;
    var r := PutAll(fs, out);
    PutAllFills(fs, out);
    PutAllNames(fs, out);
    FieldsWidth(fs, r.table);
    RecordRoundTrip(fs, r.table, rest);
    assert r.buffer[|out.buffer|..] == FieldsBytes(fs, r.table);
  }

  /** The two records with their own schemas: 44 bytes, and 37 bytes with a one-byte field in the middle. */
  lemma RecordsReadBack(e: OperationExecution, k: KiekerMetadata, out: Out)
    requires |PutAll(KiekerFields(k), PutAll(ExecutionFields(e), out)).table| <= INT32_LIMIT
    ensures var mid := PutAll(ExecutionFields(e), out);
            var end := PutAll(KiekerFields(k), mid);
            && |mid.buffer| == |out.buffer| + 44 && |end.buffer| == |mid.buffer| + 37
            && DecodeFields(EXECUTION_KINDS + KIEKER_KINDS, end.buffer[|out.buffer|..], end.table) ==
               Some((Views(ExecutionFields(e)) + Views(KiekerFields(k)), []))
  {
    hide PutAll, DecodeFields, Kinds, Views, TotalWidth, ExecutionFields, KiekerFields;
    var a, b := ExecutionFields(e), KiekerFields(k);
    RecordKinds(e, k);
    ExecutionWidth();
    KiekerWidth();
    PutAllAppend(a, b, out);
    SerializedReadsBack(a + b, out, []);
    JoinedKinds(a, b);
    PutAllFills(a, out);
    FieldsWidth(a, PutAll(a, out).table);
    PutAllFills(b, PutAll(a, out));
    FieldsWidth(b, PutAll(b, PutAll(a, out)).table);
    var s := PutAll(a + b, out).buffer[|out.buffer|..];
    assert s + [] == s;
  }

  lemma RecordKinds(e: OperationExecution, k: KiekerMetadata)
    ensures Kinds(ExecutionFields(e)) == EXECUTION_KINDS && Kinds(KiekerFields(k)) == KIEKER_KINDS
    ensures AllProper(ExecutionFields(e) + KiekerFields(k))
  {}

  lemma JoinedKinds(a: seq<Field>, b: seq<Field>)
    ensures Kinds(a + b) == Kinds(a) + Kinds(b) && Views(a + b) == Views(a) + Views(b)
  {}

  const EXECUTION_KINDS: seq<Kind> := [Text, Text, Int64, Int64, Int64, Text, Int32, Int32]
  const KIEKER_KINDS: seq<Kind> := [Text, Text, Text, Int32, Boolean, Int64, Text, Int64]

  lemma ExecutionWidth()
    ensures TotalWidth(EXECUTION_KINDS) == 44
  {}

  lemma KiekerWidth()
    ensures TotalWidth(KIEKER_KINDS) == 37
  {}
}
