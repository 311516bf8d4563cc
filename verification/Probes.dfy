/** The probes as a state machine over the trace registry, the trace id counter, the string table and the socket. */
module Probes {
  import opened Interning
  import opened Wire
  import opened Decoder

  /** What the registry holds for a thread. */
  datatype TraceData = TraceData(traceId: int, orderIndex: int, stack: int)

  /** The registry and the trace id counter. */
  datatype Registry = Registry(traces: map<int, TraceData>, nextId: int)

  /** The readings of the clock during one probe call, in the order in which records carry them. */
  datatype Clock = Clock(metadataPrefix: int, event: int, prefix: int)

  /** A probe call: entering or leaving an operation on a thread. */
  datatype Call = Call(thread: int, enter: bool, cls: CString, op: CString, clock: Clock)

  /** What a probe call reports. */
  datatype Event =
    | Metadata(traceId: int)
    | Operation(enter: bool, traceId: int, orderIndex: int, cls: CString, op: CString)

  /** kieker_trace_get: the thread's trace, a new one if it has none. */
  function Got(r: Registry, thread: int): (TraceData)
  {
    if thread in r.traces then r.traces[thread] else TraceData(r.nextId, -1, 0)
  }

  function Counted(t: TraceData, enter: bool): TraceData
  {
    TraceData(t.traceId, t.orderIndex + 1, if enter then t.stack + 1 else t.stack - 1)
  }

  /** The registry after a probe call: leaving to depth zero retires the trace. */
  function After(r: Registry, c: Call): Registry
  {
    var t := Counted(Got(r, c.thread), c.enter);
    Registry(if !c.enter && t.stack == 0 then r.traces - {c.thread} else r.traces[c.thread := t],
             if c.thread in r.traces then r.nextId else r.nextId + 1)
  }

  /** The events a probe call reports: metadata first when a fresh trace is entered. */
  function Reported(r: Registry, c: Call): (es: seq<Event>)
  {
    var t := Got(r, c.thread);
    (if c.enter && t.orderIndex == -1 then [Metadata(t.traceId)] else [])
    + [Operation(c.enter, t.traceId, t.orderIndex + 1, c.cls, c.op)]
  }

  const FLOW_TRACE_METADATA := 0
  const FLOW_BEFORE_OPERATION := 1
  const FLOW_AFTER_OPERATION := 2

  const NO_SESSION: CString := Ascii("<no-session>")

  /** The record that carries an event. */
  function RecordOf(e: Event, c: Call, host: CString): Rec
  {
    match e
    case Metadata(id) =>
      Rec(FLOW_TRACE_METADATA, c.clock.metadataPrefix,
          [Num(Int64, id), Num(Int64, c.thread), Str(NO_SESSION), Str(host), Num(Int64, -1), Num(Int32, 0)])
    case Operation(enter, id, orderIndex, cls, op) =>
      Rec(if enter then FLOW_BEFORE_OPERATION else FLOW_AFTER_OPERATION, c.clock.prefix,
          [Num(Int64, c.clock.event), Num(Int64, id), Num(Int32, orderIndex), Str(op), Str(cls)])
  }

  function RecordsOf(es: seq<Event>, c: Call, host: CString): (rs: seq<Rec>)
    ensures |rs| == |es|
  {
    if es == [] then [] else [RecordOf(es[0], c, host)] + RecordsOf(es[1..], c, host)
  }

  datatype Monitor = Monitor(registry: Registry, out: Out)

  /** One atomic probe call. */
  function Step(m: Monitor, c: Call, host: CString): Monitor
  {
    Monitor(After(m.registry, c), SendBatch(RecordsOf(Reported(m.registry, c), c, host), m.out))
  }

  function Run(m: Monitor, cs: seq<Call>, host: CString): Monitor
    decreases |cs|
  {
    hide Step;
    if cs == [] then m else Run(Step(m, cs[0], host), cs[1..], host)
  }

  /** kieker_controller_register_event_types on a fresh connection: three announcements, nothing sent from the
      buffer. */
  const REGISTERED: Out :=
    PutAll([Str(TRACE_METADATA), Str(BEFORE_OPERATION), Str(AFTER_OPERATION)], Out([], [], [])).(buffer := [])

  /** kieker_trace_init: the counter starts at a multiple of 256. */
  function Start(val: int): Monitor
  {
    Monitor(Registry(map[], val * 256), REGISTERED)
  }

  /** The messages a reader is meant to get from the calls `cs`. */
  function RunMsgs(m: Monitor, cs: seq<Call>, host: CString): seq<Msg>
    decreases |cs|
  {
    hide Step, BatchMsgs, RecordsOf, Reported;
    if cs == [] then []
    else BatchMsgs(RecordsOf(Reported(m.registry, cs[0]), cs[0], host), m.out.table)
         + RunMsgs(Step(m, cs[0], host), cs[1..], host)
  }
}
