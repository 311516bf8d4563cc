/** The plain probes over the real buffers, string table and registry. */
module ProbePlain {
  import opened Words
  import opened Bytes
  import opened Interning
  import opened Wire
  import opened Decoder
  import opened Probes
  import opened TraceItem
  import opened Lookup
  import opened Records
  import opened TraceRegistry

  /** kieker_controller_prefix_serialize. */
  method PrefixSerialize(lookup: StringTable, id: int, time: int, offset: nat) returns (position: nat)
    requires Ready(lookup, lookup.controller.buffer) && offset + 12 <= lookup.controller.buffer.Length
    modifies lookup.controller.buffer
    ensures position == offset + 12
    ensures lookup.OutAt(lookup.controller.buffer, position) ==
            Put(Num(Int64, time), Put(Num(Int32, id), old(lookup.OutAt(lookup.controller.buffer, offset))))
  {
    hide Put;
    position := AppendInt32(lookup, lookup.controller.buffer, offset, id);
    position := AppendInt64(lookup, lookup.controller.buffer, position, time);
  }

  /** kieker_probe_create_trace_metadata. */
  method CreateTraceMetadata(lookup: StringTable, offset: nat, trace: Trace, c: Call) returns (position: nat)
    requires Ready(lookup, lookup.controller.buffer) && offset + 48 <= lookup.controller.buffer.Length
    requires trace.threadId == c.thread
    modifies lookup, lookup.stringList, lookup.controller`socket, lookup.controller.stringBuffer
    modifies lookup.controller.buffer
    ensures Ready(lookup, lookup.controller.buffer)
    ensures lookup.stringList == old(lookup.stringList) || fresh(lookup.stringList)
    ensures position == offset + 48
    ensures lookup.OutAt(lookup.controller.buffer, position) ==
            PutAll(RecFields(RecordOf(Metadata(trace.traceId), c, lookup.controller.hostname)),
                   old(lookup.OutAt(lookup.controller.buffer, offset)))
  {
    hide Put, PutAll;
    var record := TraceMetadata(trace.traceId, trace.threadId, NO_SESSION, lookup.controller.hostname, -1, 0, 1);
    PutTwo(Num(Int32, FLOW_TRACE_METADATA), Num(Int64, c.clock.metadataPrefix), MetadataFields(record),
           lookup.OutAt(lookup.controller.buffer, offset));
    position := PrefixSerialize(lookup, FLOW_TRACE_METADATA, c.clock.metadataPrefix, offset);
    position := SerializeTraceMetadata(lookup, lookup.controller.buffer, position, record);
  }

  /** The test for a new trace in kieker_probe_before_operation_event, and the metadata record it leads to. */
  method Announce(lookup: StringTable, trace: Trace, c: Call) returns (position: nat)
    requires Ready(lookup, lookup.controller.buffer) && lookup.controller.Valid() && trace.threadId == c.thread
    modifies lookup, lookup.stringList, lookup.controller`socket, lookup.controller.stringBuffer
    modifies lookup.controller.buffer
    ensures Ready(lookup, lookup.controller.buffer)
    ensures lookup.stringList == old(lookup.stringList) || fresh(lookup.stringList)
    ensures position <= 48
    ensures lookup.OutAt(lookup.controller.buffer, position) ==
            var o := Out(old(lookup.Table()), old(lookup.controller.socket), []);
            if trace.orderIndex == -1
            then PutAll(RecFields(RecordOf(Metadata(trace.traceId), c, lookup.controller.hostname)), o) else o
  {
    hide Put, PutAll, RecordOf, RecFields;
    position := 0;
    if trace.orderIndex == -1 {
      position := CreateTraceMetadata(lookup, position, trace, c);
    }
  }

  /** The event a call reports on its counted trace. */
  function OperationAt(c: Call, trace: Trace): Event
    reads trace`traceId, trace`orderIndex
  {
    Operation(c.enter, trace.traceId, trace.orderIndex, c.cls, c.op)
  }

  /** kieker_probe_create_before_operation_event and kieker_probe_create_after_operation_event. */
  method CreateOperationEvent(lookup: StringTable, offset: nat, trace: Trace, c: Call) returns (position: nat)
    requires Ready(lookup, lookup.controller.buffer) && offset + 40 <= lookup.controller.buffer.Length
    modifies lookup, lookup.stringList, lookup.controller`socket, lookup.controller.stringBuffer
    modifies lookup.controller.buffer
    ensures Ready(lookup, lookup.controller.buffer)
    ensures lookup.stringList == old(lookup.stringList) || fresh(lookup.stringList)
    ensures position == offset + 40
    ensures lookup.OutAt(lookup.controller.buffer, position) ==
            PutAll(RecFields(RecordOf(OperationAt(c, trace), c, lookup.controller.hostname)),
                   old(lookup.OutAt(lookup.controller.buffer, offset)))
  {
    hide Put, PutAll;
    var record := OperationEvent(c.clock.event, trace.traceId, trace.orderIndex, c.op, c.cls);
    var typeId := if c.enter then FLOW_BEFORE_OPERATION else FLOW_AFTER_OPERATION;
    PutTwo(Num(Int32, typeId), Num(Int64, c.clock.prefix), EventFields(record),
           lookup.OutAt(lookup.controller.buffer, offset));
    position := PrefixSerialize(lookup, typeId, c.clock.prefix, offset);
    position := SerializeOperationEvent(lookup, lookup.controller.buffer, position, record);
  }

  /** The last statements of a probe: the event behind what the buffer holds, and the buffer to the socket. */
  method Report(lookup: StringTable, offset: nat, trace: Trace, c: Call)
    requires Ready(lookup, lookup.controller.buffer) && lookup.controller.Valid() && offset <= 48
    modifies lookup, lookup.stringList, lookup.controller`socket, lookup.controller.stringBuffer
    modifies lookup.controller.buffer
    ensures Ready(lookup, lookup.controller.buffer)
    ensures lookup.stringList == old(lookup.stringList) || fresh(lookup.stringList)
    ensures Out(lookup.Table(), lookup.controller.socket, []) ==
            Send(PutAll(RecFields(RecordOf(OperationAt(c, trace), c, lookup.controller.hostname)),
                        old(lookup.OutAt(lookup.controller.buffer, offset))))
  {
    hide Put, PutAll, RecordOf, RecFields;
    var position := CreateOperationEvent(lookup, offset, trace, c);
    lookup.controller.Send(position);
  }

  /** The library's global state. */
  class Library {
    const lookup: StringTable
    const traces: Traces

    ghost predicate Valid()
      reads this, lookup, traces, traces.table, traces.table.buckets, traces.table.order`next, traces.table.order`prev
      reads traces.table.items`key, traces.table.items`hashv, traces.table.items`hhNext, traces.table.items`hhPrev
      reads traces.table.items`threadId
      ensures Valid() ==> lookup.Valid()
    {
      Ready(lookup, lookup.controller.buffer) && lookup.controller.Valid() && traces.Valid()
    }

    ghost function View(): Monitor
      requires lookup.Valid()
      reads lookup, lookup.stringList, lookup.controller`socket
      reads traces`threads, traces`currentId
      reads traces.threads.Values`traceId, traces.threads.Values`orderIndex, traces.threads.Values`stack
    {
      Monitor(traces.View(), Out(lookup.Table(), lookup.controller.socket, []))
    }

    /** The objects the library changes. */
    ghost function Repr(): set<object>
      reads lookup, traces.table
    {
      {lookup, lookup.stringList, lookup.controller, lookup.controller.stringBuffer, lookup.controller.buffer,
       traces, traces.table, traces.table.buckets} + traces.table.items
    }

    /** kieker_controller_initialize on a fresh connection. */
    constructor (hostname: CString, rand: nat)
      ensures Valid() && View() == Start(rand % 1_000_000_000) && fresh(Repr())
      ensures lookup.controller.hostname == hostname
    {
      hide Traces.Valid, Traces.View, Start, Put, PutAll;
      StartIs(rand % 1_000_000_000);
      var l := Connect(hostname);
      var t := new Traces(rand);
      lookup, traces := l, t;
    }

    /** kieker_probe_before_operation_event up to the counting: the thread's trace, announced when it is new. */
    method Begin(c: Call) returns (trace: Trace, position: nat)
      requires Valid() && InRange(c.thread, 4)
      modifies Repr()
      ensures Valid() && fresh(Repr() - old(Repr())) && trace in traces.table.items && trace.threadId == c.thread
      ensures traces.View() == AfterGet(old(traces.View()), c.thread)
      ensures DataOf(trace) == Got(old(traces.View()), c.thread)
      ensures position <= 48
      ensures lookup.OutAt(lookup.controller.buffer, position) ==
              var o := Out(old(lookup.Table()), old(lookup.controller.socket), []);
              if trace.orderIndex == -1
              then PutAll(RecFields(RecordOf(Metadata(trace.traceId), c, lookup.controller.hostname)), o) else o
    {
      hide Traces.Valid, Traces.View, PutAll, RecordOf, RecFields;
      trace := traces.Get(c.thread);
      position := Announce(lookup, trace, c);
    }

    /** kieker_probe_before_operation_event. */
    method BeforeOperation(c: Call)
      requires Valid() && c.enter && InRange(c.thread, 4)
      modifies Repr()
      ensures Valid() && View() == Step(old(View()), c, lookup.controller.hostname) && fresh(Repr() - old(Repr()))
    {
      hide Traces.Valid, Traces.View, Put, PutAll, RecordOf, RecFields, Step;
      BeforeStep(View(), c, lookup.controller.hostname);
      var trace, position := Begin(c);
      traces.Count(trace, true);
      Report(lookup, position, trace, c);
    }

    /** kieker_probe_after_operation_event. */
    method AfterOperation(c: Call)
      requires Valid() && !c.enter && InRange(c.thread, 4)
      modifies Repr()
      ensures Valid() && View() == Step(old(View()), c, lookup.controller.hostname) && fresh(Repr() - old(Repr()))
    {
      hide Traces.Valid, Traces.View, Put, PutAll, RecordOf, RecFields, Step;
      AfterStep(View(), c, lookup.controller.hostname);
      var trace := traces.GetToLeave(c.thread);
      Report(lookup, 0, trace, c);
      traces.Retire(trace);
    }

    /** The bytes written so far. */
    method Written() returns (wire: seq<Byte>)
      requires Valid()
      ensures wire == View().out.wire
    {
      wire := lookup.controller.socket;
    }

    /** One probe call of the instrumented program. */
    method Probe(c: Call)
      requires Valid() && InRange(c.thread, 4)
      modifies Repr()
      ensures Valid() && View() == Step(old(View()), c, lookup.controller.hostname) && fresh(Repr() - old(Repr()))
    {
      hide Valid, View, Step, Repr;
      if c.enter {
        BeforeOperation(c);
      } else {
        AfterOperation(c);
      }
    }
  
    /** A run of probe calls. */
    method Perform(cs: seq<Call>)
      requires Valid() && forall c <- cs :: InRange(c.thread, 4)
      modifies Repr()
      ensures Valid() && View() == Run(old(View()), cs, lookup.controller.hostname) && fresh(Repr() - old(Repr()))
      decreases |cs|
    {
      hide Valid, View, Run, Step;
      if cs == [] {
        RunEnd(View(), cs, lookup.controller.hostname);
      } else {
        RunStep(View(), cs, lookup.controller.hostname);
        Probe(cs[0]);
        Perform(cs[1..]);
      }
    }
  }

  // The specification step, in the order of the code.

  lemma OneRecordSent(e: Event, c: Call, host: CString, out: Out)
    ensures SendBatch(RecordsOf([e], c, host), out) == Send(PutAll(RecFields(RecordOf(e, c, host)), out.(buffer := [])))
  {
    hide RecordOf, RecFields, PutAll;
    var r := RecordOf(e, c, host);
    assert RecordsOf([e], c, host) == [r];
    assert BatchFields([r]) == RecFields(r) + BatchFields([]);
    assert RecFields(r) + [] == RecFields(r);
  }

  lemma TwoRecordsSent(d: Event, e: Event, c: Call, host: CString, out: Out)
    ensures SendBatch(RecordsOf([d, e], c, host), out) ==
            Send(PutAll(RecFields(RecordOf(e, c, host)), PutAll(RecFields(RecordOf(d, c, host)), out.(buffer := []))))
  {
    hide RecordOf, RecFields, PutAll;
    var q, r := RecordOf(d, c, host), RecordOf(e, c, host);
    assert [d, e][1..] == [e];
    assert RecordsOf([e], c, host) == [r];
    assert RecordsOf([d, e], c, host) == [q] + [r];
    assert ([q] + [r])[1..] == [r];
    assert BatchFields([r]) == RecFields(r) + [];
    assert RecFields(r) + [] == RecFields(r);
    PutAllAppend(RecFields(q), RecFields(r), out.(buffer := []));
  }

  lemma BeforeStep(m: Monitor, c: Call, host: CString)
    requires c.enter
    ensures var t, g, o := Got(m.registry, c.thread), AfterGet(m.registry, c.thread), m.out.(buffer := []);
            var e := Operation(true, t.traceId, t.orderIndex + 1, c.cls, c.op);
            var o' := if t.orderIndex == -1 then PutAll(RecFields(RecordOf(Metadata(t.traceId), c, host)), o) else o;
            Step(m, c, host) ==
            Monitor(Registry(g.traces[c.thread := Counted(t, true)], g.nextId),
                    Send(PutAll(RecFields(RecordOf(e, c, host)), o')))
  {
    hide RecordOf, RecFields, PutAll, SendBatch, RecordsOf;
    var t := Got(m.registry, c.thread);
    var op := Operation(true, t.traceId, t.orderIndex + 1, c.cls, c.op);
    if t.orderIndex == -1 {
      assert Reported(m.registry, c) == [Metadata(t.traceId), op];
      TwoRecordsSent(Metadata(t.traceId), op, c, host, m.out);
    } else {
      assert Reported(m.registry, c) == [op];
      OneRecordSent(op, c, host, m.out);
    }
  }

  lemma AfterStep(m: Monitor, c: Call, host: CString)
    requires !c.enter
    ensures var t, g, o := Got(m.registry, c.thread), AfterGet(m.registry, c.thread), m.out.(buffer := []);
            var e := Operation(false, t.traceId, t.orderIndex + 1, c.cls, c.op);
            var t' := Counted(t, false);
            var traces := g.traces[c.thread := t'];
            Step(m, c, host) ==
            Monitor(Registry(if t'.stack == 0 then traces - {c.thread} else traces, g.nextId),
                    Send(PutAll(RecFields(RecordOf(e, c, host)), o)))
  {
    hide RecordOf, RecFields, PutAll, SendBatch, RecordsOf;
    var t := Got(m.registry, c.thread);
    var op := Operation(false, t.traceId, t.orderIndex + 1, c.cls, c.op);
    assert Reported(m.registry, c) == [op];
    OneRecordSent(op, c, host, m.out);
  }

  /** kieker_controller_register_event_types: only the announcements matter, the buffer is dropped. */
  method RegisterEventTypes(lookup: StringTable)
    requires Ready(lookup, lookup.controller.buffer) && lookup.controller.Valid()
    requires lookup.Table() == [] && lookup.controller.socket == []
    modifies lookup, lookup.stringList, lookup.controller`socket, lookup.controller.stringBuffer
    modifies lookup.controller.buffer
    ensures Ready(lookup, lookup.controller.buffer)
    ensures Out(lookup.Table(), lookup.controller.socket, []) == REGISTERED
    ensures lookup.stringList == old(lookup.stringList) || fresh(lookup.stringList)
  {
    hide Put;
    var buffer := lookup.controller.buffer;
    PutThree([Str(TRACE_METADATA), Str(BEFORE_OPERATION), Str(AFTER_OPERATION)], Out([], [], []));
    var offset := AppendString(lookup, buffer, 0, TRACE_METADATA);
    offset := AppendString(lookup, buffer, offset, BEFORE_OPERATION);
    offset := AppendString(lookup, buffer, offset, AFTER_OPERATION);
  }

  /** The buffers and the string table of a fresh connection, with the event types registered. */
  method Connect(hostname: CString) returns (lookup: StringTable)
    ensures Ready(lookup, lookup.controller.buffer) && lookup.controller.Valid()
    ensures Out(lookup.Table(), lookup.controller.socket, []) == REGISTERED && lookup.controller.hostname == hostname
    ensures fresh(lookup) && fresh(lookup.stringList) && fresh(lookup.controller)
    ensures fresh(lookup.controller.buffer) && fresh(lookup.controller.stringBuffer)
  {
    hide Put, PutAll;
    var c := new Controller(hostname);
    lookup := new StringTable(c);
    RegisterEventTypes(lookup);
  }

  /** An instrumented program on a fresh connection, its probe calls serialised: the bytes it writes. */
  method RunProgram(hostname: CString, rand: nat, cs: seq<Call>) returns (wire: seq<Byte>)
    requires forall c <- cs :: InRange(c.thread, 4)
    ensures wire == Run(Start(rand % 1_000_000_000), cs, hostname).out.wire
  {
    hide Library.Valid, Library.View, Run;
    var library := new Library(hostname, rand);
    library.Perform(cs);
    wire := library.Written();
  }

  lemma StartIs(val: int)
    ensures Start(val) == Monitor(Registry(map[], val * 256), REGISTERED)
  {}

  lemma RunStep(m: Monitor, cs: seq<Call>, host: CString)
    requires cs != []
    ensures Run(m, cs, host) == Run(Step(m, cs[0], host), cs[1..], host)
  {
    hide Step;
  }

  lemma RunEnd(m: Monitor, cs: seq<Call>, host: CString)
    requires cs == []
    ensures Run(m, cs, host) == m
  {}
}
