/** What a reader can tell about one thread from the messages of all of them. */
module ThreadView {
  import opened Bytes
  import opened Interning
  import opened Wire
  import opened Decoder
  import opened Probes
  import opened Stream

  /** A call as the program made it. */
  datatype Mark = Mark(enter: bool, cls: CString, op: CString)

  function CallsOf(cs: seq<Call>, thread: int): seq<Mark>
  {
    if cs == [] then []
    else (if cs[0].thread == thread then [Mark(cs[0].enter, cs[0].cls, cs[0].op)] else []) + CallsOf(cs[1..], thread)
  }

  /** Reads the messages for one thread: `ids` are the trace ids announced for it so far. */
  function ReadThread(ms: seq<Msg>, thread: int, ids: set<int>): seq<Mark>
  {
    if ms == [] then []
    else if IsMetadata(ms[0]) then
      ReadThread(ms[1..], thread, if ms[0].fields[1].v == thread then ids + {ms[0].fields[0].v} else ids)
    else if IsOperation(ms[0]) && ms[0].fields[1].v in ids then
      [Mark(ms[0].typeId == FLOW_BEFORE_OPERATION, ms[0].fields[4].s, ms[0].fields[3].s)]
      + ReadThread(ms[1..], thread, ids)
    else ReadThread(ms[1..], thread, ids)
  }

  predicate IsMetadata(m: Msg)
  {
    m.Recorded? && m.typeId == FLOW_TRACE_METADATA && |m.fields| == 6 && m.fields[0].Num? && m.fields[1].Num?
  }

  predicate IsOperation(m: Msg)
  {
    && m.Recorded? && (m.typeId == FLOW_BEFORE_OPERATION || m.typeId == FLOW_AFTER_OPERATION)
    && |m.fields| == 5 && m.fields[1].Num? && m.fields[3].Str? && m.fields[4].Str?
  }

  /** Starting `depth` deep, the calls never leave an operation the thread has not entered. */
  predicate NeverUnder(ms: seq<Mark>, depth: nat)
  {
    ms == [] || (if ms[0].enter then NeverUnder(ms[1..], depth + 1) else depth > 0 && NeverUnder(ms[1..], depth - 1))
  }

  /** Numbers small enough for the fields they are written to. */
  ghost predicate Representable(r: Registry, cs: seq<Call>)
  {
    && (forall t <- r.traces :: InRange(r.traces[t].traceId, 8))
    && InRange(r.nextId, 8) && InRange(r.nextId + |cs|, 8)
    && (forall c <- cs :: InRange(c.thread, 8))
  }

  /** The reader's `ids` belong to `thread` alone. */
  ghost predicate Separate(r: Registry, thread: int, ids: set<int>)
  {
    && (forall id <- ids :: id < r.nextId)
    && (forall t <- r.traces :: r.traces[t].traceId < r.nextId && r.traces[t].orderIndex >= 0)
    && (forall t <- r.traces :: t != thread ==> r.traces[t].traceId !in ids)
    && (forall t, u :: t in r.traces && u in r.traces && t != u ==> r.traces[t].traceId != r.traces[u].traceId)
  }

  /** The reader follows the thread's open trace, `depth` deep. */
  ghost predicate Follows(r: Registry, thread: int, ids: set<int>, depth: nat)
  {
    if thread in r.traces then r.traces[thread].traceId in ids && r.traces[thread].stack == depth > 0 else depth == 0
  }

  function NewIds(r: Registry, c: Call, thread: int, ids: set<int>): set<int>
  {
    if c.thread == thread && c.enter && Got(r, thread).orderIndex == -1 then ids + {Got(r, thread).traceId} else ids
  }

  lemma {:induction false} SkipsAnnouncements(ss: seq<CString>, from: nat, rest: seq<Msg>, thread: int, ids: set<int>)
    ensures ReadThread(AnnouncedMsgs(ss, from) + rest, thread, ids) == ReadThread(rest, thread, ids)
    decreases |ss|
  {
    if ss == [] {
      assert AnnouncedMsgs(ss, from) + rest == rest;
    } else {
      var ms := AnnouncedMsgs(ss, from) + rest;
      assert ms[0] == Announced(from, ss[0]) && ms[1..] == AnnouncedMsgs(ss[1..], from + 1) + rest;
      SkipsAnnouncements(ss[1..], from + 1, rest, thread, ids);
    }
  }

  /** What the reader makes of one event. */
  lemma ReadsEvent(e: Event, c: Call, host: CString, rest: seq<Msg>, thread: int, ids: set<int>)
    requires InRange(e.traceId, 8) && InRange(c.thread, 8)
    ensures ReadThread([RecordedMsg(RecordOf(e, c, host))] + rest, thread, ids) ==
            match e
            case Metadata(id) => ReadThread(rest, thread, if c.thread == thread then ids + {id} else ids)
            case Operation(enter, id, _, cls, op) =>
              (if id in ids then [Mark(enter, cls, op)] else []) + ReadThread(rest, thread, ids)
  {
    var m := RecordedMsg(RecordOf(e, c, host));
    assert ([m] + rest)[1..] == rest;
    WireViewExact(e.traceId, 8);
    WireViewExact(c.thread, 8);
  }

  /** What the reader makes of one probe call. */
  lemma ReadsCall(r: Registry, table: Table, c: Call, host: CString, rest: seq<Msg>, thread: int, ids: set<int>)
    requires Separate(r, thread, ids) && InRange(c.thread, 8) && InRange(Got(r, c.thread).traceId, 8)
    ensures var ids' := NewIds(r, c, thread, ids);
            ReadThread(BatchMsgs(RecordsOf(Reported(r, c), c, host), table) + rest, thread, ids) ==
            (if c.thread == thread && Got(r, thread).traceId in ids' then [Mark(c.enter, c.cls, c.op)] else [])
            + ReadThread(rest, thread, ids')
  {
    hide ReadThread, AnnouncedMsgs, NewNames, RecordOf, RecordedMsg;
    var es := Reported(r, c);
    var rs := RecordsOf(es, c, host);
    var ss := NewNames(BatchFields(rs), table);
    var t := Got(r, c.thread);
    var body := RecordedMsgs(rs) + rest;
    assert BatchMsgs(rs, table) + rest == AnnouncedMsgs(ss, |table|) + body;
    SkipsAnnouncements(ss, |table|, body, thread, ids);
    var op := Operation(c.enter, t.traceId, t.orderIndex + 1, c.cls, c.op);
    var last := [RecordedMsg(RecordOf(op, c, host))] + rest;
    ReadsEvent(op, c, host, rest, thread, NewIds(r, c, thread, ids));
    if c.enter && t.orderIndex == -1 {
      var meta := Metadata(t.traceId);
      assert es == [meta, op];
      TwoRecords(meta, op, c, host);
      assert body == [RecordedMsg(RecordOf(meta, c, host))] + last;
      ReadsEvent(meta, c, host, last, thread, ids);
    } else {
      assert es == [op];
      OneRecord(op, c, host);
      assert body == last;
    }
  }

  lemma OneRecord(e: Event, c: Call, host: CString)
    ensures RecordedMsgs(RecordsOf([e], c, host)) == [RecordedMsg(RecordOf(e, c, host))]
  {}

  lemma TwoRecords(d: Event, e: Event, c: Call, host: CString)
    ensures RecordedMsgs(RecordsOf([d, e], c, host)) ==
            [RecordedMsg(RecordOf(d, c, host)), RecordedMsg(RecordOf(e, c, host))]
  {
    hide RecordOf, RecordedMsg;
    OneRecord(e, c, host);
    assert [d, e][1..] == [e];
    assert RecordsOf([d, e], c, host)[1..] == RecordsOf([e], c, host);
  }

  lemma StepSeparate(r: Registry, c: Call, thread: int, ids: set<int>)
    requires Separate(r, thread, ids)
    ensures Separate(After(r, c), thread, NewIds(r, c, thread, ids))
  {}

  lemma StepRepresentable(r: Registry, cs: seq<Call>)
    requires cs != [] && Representable(r, cs)
    ensures Representable(After(r, cs[0]), cs[1..]) && InRange(Got(r, cs[0].thread).traceId, 8)
  {}

  /** A reader that follows the thread recovers its calls exactly, as long as they never go under. */
  lemma {:induction false} ReadsThread(m: Monitor, cs: seq<Call>, host: CString, thread: int, ids: set<int>, depth: nat)
    requires Separate(m.registry, thread, ids) && Representable(m.registry, cs)
    requires Follows(m.registry, thread, ids, depth) && NeverUnder(CallsOf(cs, thread), depth)
    ensures ReadThread(RunMsgs(m, cs, host), thread, ids) == CallsOf(cs, thread)
    decreases |cs|
  {
    hide ReadThread, Separate, Representable, BatchMsgs, RecordsOf, SendBatch, Reported;
    if cs == [] {
      ReadsNothing(thread, ids);
    } else {
      var c, next := cs[0], Step(m, cs[0], host);
      var ids' := NewIds(m.registry, c, thread, ids);
      StepRepresentable(m.registry, cs);
      CallInRange(m.registry, cs);
      StepSeparate(m.registry, c, thread, ids);
      ReadsCall(m.registry, m.out.table, c, host, RunMsgs(next, cs[1..], host), thread, ids);
      FirstCall(cs, thread);
      var depth' := if c.thread != thread then depth else if c.enter then depth + 1 else depth - 1;
      ReadsThread(next, cs[1..], host, thread, ids', depth');
    }
  }

  lemma FirstCall(cs: seq<Call>, thread: int)
    requires cs != []
    ensures cs[0].thread == thread ==>
              CallsOf(cs, thread) == [Mark(cs[0].enter, cs[0].cls, cs[0].op)] + CallsOf(cs[1..], thread)
    ensures cs[0].thread != thread ==> CallsOf(cs, thread) == CallsOf(cs[1..], thread)
    ensures cs[0].thread == thread ==> CallsOf(cs, thread)[1..] == CallsOf(cs[1..], thread)
  {}

  lemma CallInRange(r: Registry, cs: seq<Call>)
    requires cs != [] && Representable(r, cs)
    ensures InRange(cs[0].thread, 8)
  {}

  lemma ReadsNothing(thread: int, ids: set<int>)
    ensures ReadThread([], thread, ids) == []
  {}

  /** A reader never sees more calls of a thread than it made. */
  lemma {:induction false} ReadsAtMost(m: Monitor, cs: seq<Call>, host: CString, thread: int, ids: set<int>)
    requires Separate(m.registry, thread, ids) && Representable(m.registry, cs)
    ensures |ReadThread(RunMsgs(m, cs, host), thread, ids)| <= |CallsOf(cs, thread)|
    decreases |cs|
  {
    hide ReadThread, Separate, Representable, BatchMsgs, RecordsOf, SendBatch, Reported;
    if cs == [] {
      ReadsNothing(thread, ids);
    } else {
      var c, next := cs[0], Step(m, cs[0], host);
      StepRepresentable(m.registry, cs);
      CallInRange(m.registry, cs);
      StepSeparate(m.registry, c, thread, ids);
      ReadsCall(m.registry, m.out.table, c, host, RunMsgs(next, cs[1..], host), thread, ids);
      ReadsAtMost(next, cs[1..], host, thread, NewIds(m.registry, c, thread, ids));
    }
  }

  /** Leaving an operation that was never entered loses calls: the trace it opens has no metadata. */
  lemma {:induction false} UnderLoses(m: Monitor, cs: seq<Call>, host: CString, thread: int, ids: set<int>, depth: nat)
    requires Separate(m.registry, thread, ids) && Representable(m.registry, cs)
    requires Follows(m.registry, thread, ids, depth) && !NeverUnder(CallsOf(cs, thread), depth)
    ensures |ReadThread(RunMsgs(m, cs, host), thread, ids)| < |CallsOf(cs, thread)|
    decreases |cs|
  {
    hide ReadThread, Representable, BatchMsgs, RecordsOf, SendBatch, Reported;
    if cs != [] {
      var c, next := cs[0], Step(m, cs[0], host);
      var ids' := NewIds(m.registry, c, thread, ids);
      StepRepresentable(m.registry, cs);
      CallInRange(m.registry, cs);
      StepSeparate(m.registry, c, thread, ids);
      ReadsCall(m.registry, m.out.table, c, host, RunMsgs(next, cs[1..], host), thread, ids);
      FirstCall(cs, thread);
      if c.thread == thread && !c.enter && depth == 0 {
        assert Got(m.registry, thread).traceId !in ids';
        ReadsAtMost(next, cs[1..], host, thread, ids');
      } else {
        var depth' := if c.thread != thread then depth else if c.enter then depth + 1 else depth - 1;
        UnderLoses(next, cs[1..], host, thread, ids', depth');
      }
    }
  }

  /** Trace ids and thread ids of the run fit the signed 64-bit fields of the records. */
  predicate IdsFit(val: int, cs: seq<Call>)
  {
    && InRange(val * 256, 8) && InRange(val * 256 + |cs|, 8)
    && forall c <- cs :: InRange(c.thread, 8)
  }

  /** End to end, for any interleaving of probe calls: from the bytes alone a reader recovers the calls of a thread,
      in order, if and only if the thread never leaves an operation it has not entered. */
  lemma ReaderRecoversThread(val: int, cs: seq<Call>, host: CString, thread: int)
    requires |Run(Start(val), cs, host).out.table| <= INT32_LIMIT && IdsFit(val, cs)
    ensures var ms := Decode(Run(Start(val), cs, host).out.wire, []);
            && ms.Some?
            && (ReadThread(ms.value, thread, {}) == CallsOf(cs, thread) <==> NeverUnder(CallsOf(cs, thread), 0))
  {
    hide Run, RunMsgs, Decode, ReadThread, AnnouncedMsgs, NeverUnder, CallsOf;
    StreamDecodes(val, cs, host);
    var m := Start(val);
    SkipsAnnouncements(REGISTERED.table, 0, RunMsgs(m, cs, host), thread, {});
    if NeverUnder(CallsOf(cs, thread), 0) {
      ReadsThread(m, cs, host, thread, {}, 0);
    } else {
      UnderLoses(m, cs, host, thread, {}, 0);
    }
  }
}
