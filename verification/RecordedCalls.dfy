/** What the decoded records say of the probe calls: type, times, ids, indices and strings, call by call. */
module RecordedCalls {
  import opened Bytes
  import opened Interning
  import opened Wire
  import opened Decoder
  import opened Probes
  import opened Stream
  import opened NonInterference
  import opened NameCodes

  /** The announced strings: the n-th is the one under id n. */
  function Heard(ms: seq<Msg>): seq<CString>
  {
    if ms == [] then [] else (if ms[0].Announced? then [ms[0].s] else []) + Heard(ms[1..])
  }

  /** The records among the messages. */
  function RecordsIn(ms: seq<Msg>): seq<Msg>
  {
    if ms == [] then [] else (if ms[0].Recorded? then [ms[0]] else []) + RecordsIn(ms[1..])
  }

  /** A record whose type was announced under this name. */
  predicate Typed(m: Msg, names: seq<CString>, name: string)
  {
    m.Recorded? && 0 <= m.typeId < |names| && Spells(names[m.typeId], name)
  }

  predicate IsMetadataRecord(m: Msg, names: seq<CString>)
  {
    Typed(m, names, "kieker.common.record.flow.trace.TraceMetadata")
  }

  predicate IsBeforeRecord(m: Msg, names: seq<CString>)
  {
    Typed(m, names, "kieker.common.record.flow.trace.operation.BeforeOperationEvent")
  }

  predicate IsAfterRecord(m: Msg, names: seq<CString>)
  {
    Typed(m, names, "kieker.common.record.flow.trace.operation.AfterOperationEvent")
  }

  /** The record announces trace `id` of the thread of call `c`. */
  predicate ShowsMetadata(m: Msg, names: seq<CString>, c: Call, id: int, host: CString)
  {
    && IsMetadataRecord(m, names)
    && m.time == WireView(c.clock.metadataPrefix, 8)
    && |m.fields| == 6
    && m.fields[0] == Num(Int64, WireView(id, 8)) && m.fields[1] == Num(Int64, WireView(c.thread, 8))
    && m.fields[2].Str? && Spells(m.fields[2].s, "<no-session>") && m.fields[3] == Str(host)
    && m.fields[4] == Num(Int64, -1) && m.fields[5] == Num(Int32, 0)
  }

  /** The record reports call `c` as number `orderIndex` of trace `id`. */
  predicate ShowsOperation(m: Msg, names: seq<CString>, c: Call, id: int, orderIndex: int)
  {
    && (if c.enter then IsBeforeRecord(m, names) else IsAfterRecord(m, names))
    && m.time == WireView(c.clock.prefix, 8)
    && |m.fields| == 5
    && m.fields[0] == Num(Int64, WireView(c.clock.event, 8)) && m.fields[1] == Num(Int64, WireView(id, 8))
    && m.fields[2] == Num(Int32, WireView(orderIndex, 4)) && m.fields[3] == Str(c.op) && m.fields[4] == Str(c.cls)
  }

  /** The call enters an operation under a trace of which nothing has been reported. */
  predicate Announces(r: Registry, c: Call) { c.enter && Got(r, c.thread).orderIndex == -1 }

  /** The records are those of the calls, in their order and without any other: metadata first where a call announces a
      trace, then the operation. */
  predicate ShowsCalls(rs: seq<Msg>, names: seq<CString>, r: Registry, cs: seq<Call>, host: CString)
    decreases |cs|
  {
    if cs == [] then rs == []
    else
      var c, t := cs[0], Got(r, cs[0].thread);
      var n := if Announces(r, c) then 1 else 0;
      && |rs| > n
      && (Announces(r, c) ==> ShowsMetadata(rs[0], names, c, t.traceId, host))
      && ShowsOperation(rs[n], names, c, t.traceId, t.orderIndex + 1)
      && ShowsCalls(rs[n + 1..], names, After(r, c), cs[1..], host)
  }

  // From the messages of a run to its records.

  lemma RecordsInStep(ms: seq<Msg>)
    ensures RecordsIn([]) == []
    ensures ms != [] ==> RecordsIn(ms) == (if ms[0].Recorded? then [ms[0]] else []) + RecordsIn(ms[1..])
  {}

  lemma {:induction false} RecordsInAppend(a: seq<Msg>, b: seq<Msg>)
    ensures RecordsIn(a + b) == RecordsIn(a) + RecordsIn(b)
  {
    hide RecordsIn;
    if a == [] {
      assert a + b == b;
      RecordsInStep([]);
    } else {
      var first := if a[0].Recorded? then [a[0]] else [];
      assert (a + b)[1..] == a[1..] + b;
      RecordsInAppend(a[1..], b);
      RecordsInStep(a + b);
      RecordsInStep(a);
      assert first + (RecordsIn(a[1..]) + RecordsIn(b)) == first + RecordsIn(a[1..]) + RecordsIn(b);
    }
  }

  lemma {:induction false} NoRecordsAnnounced(ss: seq<CString>, from: nat)
    ensures RecordsIn(AnnouncedMsgs(ss, from)) == []
    decreases |ss|
  {
    if ss != [] {
      NoRecordsAnnounced(ss[1..], from + 1);
    }
  }

  lemma {:induction false} OnlyRecords(rs: seq<Rec>)
    ensures RecordsIn(RecordedMsgs(rs)) == RecordedMsgs(rs)
  {
    if rs != [] {
      OnlyRecords(rs[1..]);
    }
  }

  lemma BatchRecords(rs: seq<Rec>, table: Table)
    ensures RecordsIn(BatchMsgs(rs, table)) == RecordedMsgs(rs)
  {
    hide RecordsIn, AnnouncedMsgs, NewNames, RecordedMsgs;
    var ss := NewNames(BatchFields(rs), table);
    RecordsInAppend(AnnouncedMsgs(ss, |table|), RecordedMsgs(rs));
    NoRecordsAnnounced(ss, |table|);
    OnlyRecords(rs);
  }

  /** The record types by the names they are announced under. */
  predicate TypesSpelled(names: seq<CString>)
  {
    && |names| >= 3
    && Spells(names[0], "kieker.common.record.flow.trace.TraceMetadata")
    && Spells(names[1], "kieker.common.record.flow.trace.operation.BeforeOperationEvent")
    && Spells(names[2], "kieker.common.record.flow.trace.operation.AfterOperationEvent")
  }

  lemma ConstantsExact()
    ensures WireView(-1, 8) == -1 && WireView(0, 4) == 0
  {
    WireViewExact(-1, 8);
    WireViewExact(0, 4);
  }

  lemma MetadataShown(id: int, c: Call, host: CString, names: seq<CString>)
    requires TypesSpelled(names)
    ensures ShowsMetadata(RecordedMsg(RecordOf(Metadata(id), c, host)), names, c, id, host)
  {
    hide Spells, WireView, Ascii;
    SessionSpelled();
    ConstantsExact();
  }

  lemma OperationShown(id: int, o: int, c: Call, host: CString, names: seq<CString>)
    requires TypesSpelled(names)
    ensures ShowsOperation(RecordedMsg(RecordOf(Operation(c.enter, id, o, c.cls, c.op), c, host)), names, c, id, o)
  {
    hide Spells, WireView, Ascii;
  }

  lemma CallShown(r: Registry, c: Call, host: CString, names: seq<CString>)
    requires TypesSpelled(names)
    ensures var ms, t := RecordedMsgs(RecordsOf(Reported(r, c), c, host)), Got(r, c.thread);
            var n := if Announces(r, c) then 1 else 0;
            && |ms| == n + 1
            && (Announces(r, c) ==> ShowsMetadata(ms[0], names, c, t.traceId, host))
            && ShowsOperation(ms[n], names, c, t.traceId, t.orderIndex + 1)
  {
    hide TypesSpelled, ShowsMetadata, ShowsOperation, RecordOf, RecordedMsg;
    var t := Got(r, c.thread);
    var op := Operation(c.enter, t.traceId, t.orderIndex + 1, c.cls, c.op);
    OperationShown(t.traceId, t.orderIndex + 1, c, host, names);
    MetadataShown(t.traceId, c, host, names);
    if Announces(r, c) {
      assert Reported(r, c) == [Metadata(t.traceId), op];
      TwoMsgs(Metadata(t.traceId), op, c, host);
    } else {
      assert Reported(r, c) == [op];
      OneMsg(op, c, host);
    }
  }

  lemma OneMsg(e: Event, c: Call, host: CString)
    ensures RecordedMsgs(RecordsOf([e], c, host)) == [RecordedMsg(RecordOf(e, c, host))]
  {
    hide RecordOf, RecordedMsg;
    assert [e][1..] == [];
    assert RecordsOf([e], c, host) == [RecordOf(e, c, host)];
    assert [RecordOf(e, c, host)][1..] == [];
  }

  lemma TwoMsgs(e: Event, e': Event, c: Call, host: CString)
    ensures RecordedMsgs(RecordsOf([e, e'], c, host)) ==
            [RecordedMsg(RecordOf(e, c, host)), RecordedMsg(RecordOf(e', c, host))]
  {
    hide RecordOf, RecordedMsg;
    assert [e, e'][1..] == [e'];
    OneMsg(e', c, host);
    var rs := RecordsOf([e, e'], c, host);
    assert rs == [RecordOf(e, c, host)] + RecordsOf([e'], c, host);
    assert rs[1..] == RecordsOf([e'], c, host);
  }

  lemma {:induction false} RunShown(m: Monitor, cs: seq<Call>, host: CString, names: seq<CString>)
    requires TypesSpelled(names)
    ensures ShowsCalls(RecordsIn(RunMsgs(m, cs, host)), names, m.registry, cs, host)
    decreases |cs|
  {
    hide TypesSpelled, ShowsMetadata, ShowsOperation, RecordsIn, RecordedMsgs, RecordsOf, Reported, BatchMsgs,
         SendBatch, After, Announces, Got;
    if cs == [] {
      NoMessages();
    } else {
      var next := Step(m, cs[0], host);
      var rs := RecordsOf(Reported(m.registry, cs[0]), cs[0], host);
      var first := RecordedMsgs(rs);
      CallShown(m.registry, cs[0], host, names);
      RecordsInAppend(BatchMsgs(rs, m.out.table), RunMsgs(next, cs[1..], host));
      BatchRecords(rs, m.out.table);
      RunShown(next, cs[1..], host, names);
      assert (first + RecordsIn(RunMsgs(next, cs[1..], host)))[|first|..] == RecordsIn(RunMsgs(next, cs[1..], host));
    }
  }

  lemma NoMessages()
    ensures RecordsIn([]) == [] && Heard([]) == []
  {}

  // The announced names.

  lemma {:induction false} HeardOfAnnounced(ms: seq<Msg>)
    ensures Heard(AnnouncedIn(ms)) == Heard(ms)
  {
    if ms != [] {
      HeardOfAnnounced(ms[1..]);
      if ms[0].Announced? {
        assert AnnouncedIn(ms)[1..] == AnnouncedIn(ms[1..]);
      } else {
        assert AnnouncedIn(ms) == AnnouncedIn(ms[1..]);
      }
    }
  }

  lemma {:induction false} HeardNames(ss: seq<CString>, from: nat)
    ensures Heard(AnnouncedMsgs(ss, from)) == ss
    decreases |ss|
  {
    if ss != [] {
      HeardNames(ss[1..], from + 1);
      assert AnnouncedMsgs(ss, from)[1..] == AnnouncedMsgs(ss[1..], from + 1);
    }
  }

  lemma TypesSpelledInLonger(table: Table, names: Table)
    requires table <= names && TypesSpelled(table)
    ensures TypesSpelled(names)
  {
    hide Spells;
  }

  /** End to end: the records a reader finds in the bytes of a fresh connection are those of the calls, and what they
      carry is what the calls were given, under the type names the reader heard. */
  lemma CallsRecorded(val: int, cs: seq<Call>, host: CString)
    requires |Run(Start(val), cs, host).out.table| <= INT32_LIMIT
    ensures var read := Decode(Run(Start(val), cs, host).out.wire, []);
            && read.Some?
            && TypesSpelled(Heard(read.value))
            && ShowsCalls(RecordsIn(read.value), Heard(read.value), Registry(map[], val * 256), cs, host)
  {
    hide Run, RunMsgs, Decode, Heard, RecordsIn, AnnouncedIn, AnnouncedMsgs, ShowsCalls, TypesSpelled, PutAll,
         NoDuplicates, Ascii, Spells;
    StreamDecodes(val, cs, host);
    EachIdAnnouncedOnce(val, cs, host);
    var m, end := Start(val), Run(Start(val), cs, host).out.table;
    var ms := AnnouncedMsgs(REGISTERED.table, 0) + RunMsgs(m, cs, host);
    HeardOfAnnounced(ms);
    HeardNames(end, 0);
    TableGrows(m, cs, host);
    RegisteredSpelled();
    TypesSpelledInLonger(REGISTERED.table, end);
    RecordsInAppend(AnnouncedMsgs(REGISTERED.table, 0), RunMsgs(m, cs, host));
    NoRecordsAnnounced(REGISTERED.table, 0);
    RunShown(m, cs, host, end);
    assert [] + RecordsIn(RunMsgs(m, cs, host)) == RecordsIn(RunMsgs(m, cs, host));
  }

  lemma RegisteredSpelled()
    ensures TypesSpelled(REGISTERED.table)
  {
    hide Spells;
    NamesSpelled();
  }

  // Call by call.

  predicate IsOperationRecord(m: Msg, names: seq<CString>) { IsBeforeRecord(m, names) || IsAfterRecord(m, names) }

  /** The operation records among the messages. */
  function OperationsIn(ms: seq<Msg>, names: seq<CString>): seq<Msg>
  {
    if ms == [] then []
    else (if IsOperationRecord(ms[0], names) then [ms[0]] else []) + OperationsIn(ms[1..], names)
  }

  /** The metadata records among the messages. */
  function MetadataIn(ms: seq<Msg>, names: seq<CString>): seq<Msg>
  {
    if ms == [] then []
    else (if IsMetadataRecord(ms[0], names) then [ms[0]] else []) + MetadataIn(ms[1..], names)
  }

  /** The calls that announce a trace, with its id. */
  function NewTraces(r: Registry, cs: seq<Call>): seq<(Call, int)>
    decreases |cs|
  {
    if cs == [] then []
    else (if Announces(r, cs[0]) then [(cs[0], Got(r, cs[0].thread).traceId)] else [])
         + NewTraces(After(r, cs[0]), cs[1..])
  }

  lemma TypesApart(m: Msg, names: seq<CString>)
    ensures IsMetadataRecord(m, names) ==> !IsOperationRecord(m, names)
  {}

  /** The k-th operation record is that of the k-th call, under the trace its thread then has. */
  lemma {:induction false} OperationOfCall(rs: seq<Msg>, names: seq<CString>, r: Registry, cs: seq<Call>,
                                           host: CString, k: nat)
    requires ShowsCalls(rs, names, r, cs, host)
    ensures |OperationsIn(rs, names)| == |cs|
    ensures k < |cs| ==>
              var t := Got(RegistryRun(r, cs[..k]), cs[k].thread);
              ShowsOperation(OperationsIn(rs, names)[k], names, cs[k], t.traceId, t.orderIndex + 1)
    decreases |cs|
  {
    hide IsMetadataRecord, IsBeforeRecord, IsAfterRecord, After, Got, Announces;
    if cs != [] {
      var n := if Announces(r, cs[0]) then 1 else 0;
      TypesApart(rs[0], names);
      TypesApart(rs[n], names);
      var later := rs[n + 1..];
      if n == 1 {
        assert OperationsIn(rs, names) == OperationsIn(rs[1..], names);
        assert rs[1..][1..] == later;
      }
      assert OperationsIn(rs, names) == [rs[n]] + OperationsIn(later, names);
      OperationOfCall(later, names, After(r, cs[0]), cs[1..], host, if k > 0 then k - 1 else 0);
      if 0 < k < |cs| {
        assert cs[..k][0] == cs[0] && cs[..k][1..] == cs[1..][..k - 1];
      }
    }
  }

  /** The metadata records are those of the calls that announce a trace, each with the trace's id. */
  lemma {:induction false} MetadataOfCall(rs: seq<Msg>, names: seq<CString>, r: Registry, cs: seq<Call>, host: CString,
                                          j: nat)
    requires ShowsCalls(rs, names, r, cs, host)
    ensures |MetadataIn(rs, names)| == |NewTraces(r, cs)|
    ensures j < |NewTraces(r, cs)| ==>
              var (c, id) := NewTraces(r, cs)[j];
              ShowsMetadata(MetadataIn(rs, names)[j], names, c, id, host)
    decreases |cs|
  {
    hide IsMetadataRecord, IsBeforeRecord, IsAfterRecord, After, Got, Announces;
    if cs != [] {
      var n := if Announces(r, cs[0]) then 1 else 0;
      TypesApart(rs[n], names);
      var later := rs[n + 1..];
      assert MetadataIn(rs[n..], names) == MetadataIn(later, names) by { assert rs[n..][1..] == later; }
      MetadataOfCall(later, names, After(r, cs[0]), cs[1..], host, if j >= n then j - n else 0);
    }
  }

  /** Operation by operation: there is one record for each call, and the k-th has the type, the times, the trace, the
      index and the strings of the k-th call. */
  lemma OperationRecorded(val: int, cs: seq<Call>, host: CString, k: nat)
    requires |Run(Start(val), cs, host).out.table| <= INT32_LIMIT && k < |cs|
    ensures Decode(Run(Start(val), cs, host).out.wire, []).Some?
    ensures var ms := Decode(Run(Start(val), cs, host).out.wire, []).value;
            var ops := OperationsIn(RecordsIn(ms), Heard(ms));
            var t := Got(RegistryRun(Registry(map[], val * 256), cs[..k]), cs[k].thread);
            |ops| == |cs| && ShowsOperation(ops[k], Heard(ms), cs[k], t.traceId, t.orderIndex + 1)
  {
    hide Run, Decode, Heard, RecordsIn, ShowsCalls, TypesSpelled, ShowsOperation, RegistryRun, OperationsIn;
    CallsRecorded(val, cs, host);
    var ms := Decode(Run(Start(val), cs, host).out.wire, []).value;
    OperationOfCall(RecordsIn(ms), Heard(ms), Registry(map[], val * 256), cs, host, k);
  }

  /** Trace by trace: there is one metadata record for each call that announces a trace, and it names the trace, the
      thread, no session, the host and no parent. */
  lemma MetadataRecorded(val: int, cs: seq<Call>, host: CString, j: nat)
    requires |Run(Start(val), cs, host).out.table| <= INT32_LIMIT && j < |NewTraces(Registry(map[], val * 256), cs)|
    ensures Decode(Run(Start(val), cs, host).out.wire, []).Some?
    ensures var ms := Decode(Run(Start(val), cs, host).out.wire, []).value;
            var announced := NewTraces(Registry(map[], val * 256), cs);
            && |MetadataIn(RecordsIn(ms), Heard(ms))| == |announced|
            && ShowsMetadata(MetadataIn(RecordsIn(ms), Heard(ms))[j], Heard(ms), announced[j].0, announced[j].1, host)
  {
    hide Run, Decode, Heard, RecordsIn, ShowsCalls, TypesSpelled, ShowsMetadata, NewTraces, MetadataIn;
    CallsRecorded(val, cs, host);
    var ms := Decode(Run(Start(val), cs, host).out.wire, []).value;
    MetadataOfCall(RecordsIn(ms), Heard(ms), Registry(map[], val * 256), cs, host, j);
  }
}
