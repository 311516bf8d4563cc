/** The traces as a reader finds them in the bytes. */
module DecodedTraces {
  import opened Bytes
  import opened Interning
  import opened Wire
  import opened Decoder
  import opened Probes
  import opened Stream
  import opened ThreadView
  import opened CallTree
  import opened ThreadRun
  import opened NonInterference

  /** The event a message carries, if any. */
  function EventOf(m: Msg): seq<Event>
  {
    if IsMetadata(m) then [Metadata(m.fields[0].v)]
    else if IsOperation(m) && m.fields[2].Num? then
      [Operation(m.typeId == FLOW_BEFORE_OPERATION, m.fields[1].v, m.fields[2].v, m.fields[4].s, m.fields[3].s)]
    else []
  }

  /** All events a reader finds in the messages. */
  function ReadEvents(ms: seq<Msg>): seq<Event>
  {
    if ms == [] then [] else EventOf(ms[0]) + ReadEvents(ms[1..])
  }

  /** The events of one trace. */
  function With(es: seq<Event>, id: int): seq<Event>
  {
    if es == [] then [] else (if es[0].traceId == id then [es[0]] else []) + With(es[1..], id)
  }

  /** An event as a reader sees it: order indices are fields of 32 bits. */
  function Seen(e: Event): Event
  {
    if e.Operation? then e.(orderIndex := WireView(e.orderIndex, 4)) else e
  }

  function SeenAll(es: seq<Event>): (r: seq<Event>)
    ensures |r| == |es| && forall i :: 0 <= i < |es| ==> r[i] == Seen(es[i])
  {
    seq(|es|, i requires 0 <= i < |es| => Seen(es[i]))
  }

  /** The events of all threads, in the order of their calls. */
  function AllEvents(r: Registry, cs: seq<Call>): seq<Event>
    decreases |cs|
  {
    if cs == [] then [] else Reported(r, cs[0]) + AllEvents(After(r, cs[0]), cs[1..])
  }

  // From the bytes to the events.

  lemma {:induction false} ReadEventsAppend(a: seq<Msg>, b: seq<Msg>)
    ensures ReadEvents(a + b) == ReadEvents(a) + ReadEvents(b)
  {
    hide EventOf;
    if a == [] {
      assert a + b == b;
    } else {
      assert (a + b)[1..] == a[1..] + b;
      ReadEventsAppend(a[1..], b);
    }
  }

  lemma {:induction false} NoEventsAnnounced(ss: seq<CString>, from: nat)
    ensures ReadEvents(AnnouncedMsgs(ss, from)) == []
    decreases |ss|
  {
    if ss != [] {
      NoEventsAnnounced(ss[1..], from + 1);
    }
  }

  lemma EventIsRead(e: Event, c: Call, host: CString)
    requires InRange(e.traceId, 8)
    ensures ReadEvents([RecordedMsg(RecordOf(e, c, host))]) == [Seen(e)]
  {
    var m := RecordedMsg(RecordOf(e, c, host));
    WireViewExact(e.traceId, 8);
    assert EventOf(m) == [Seen(e)];
    assert [m][1..] == [] && ReadEvents([]) == [];
  }

  lemma CallIsRead(r: Registry, table: Table, c: Call, host: CString)
    requires InRange(Got(r, c.thread).traceId, 8)
    ensures ReadEvents(BatchMsgs(RecordsOf(Reported(r, c), c, host), table)) == SeenAll(Reported(r, c))
  {
    hide ReadEvents, AnnouncedMsgs, NewNames, RecordOf, RecordedMsg;
    var es, t := Reported(r, c), Got(r, c.thread);
    var rs := RecordsOf(es, c, host);
    var ss := NewNames(BatchFields(rs), table);
    ReadEventsAppend(AnnouncedMsgs(ss, |table|), RecordedMsgs(rs));
    NoEventsAnnounced(ss, |table|);
    var op := Operation(c.enter, t.traceId, t.orderIndex + 1, c.cls, c.op);
    EventIsRead(op, c, host);
    if c.enter && t.orderIndex == -1 {
      var meta := Metadata(t.traceId);
      assert es == [meta, op];
      TwoRecords(meta, op, c, host);
      EventIsRead(meta, c, host);
      var first, second := RecordedMsg(RecordOf(meta, c, host)), RecordedMsg(RecordOf(op, c, host));
      ReadEventsAppend([first], [second]);
      assert [first] + [second] == [first, second];
    } else {
      assert es == [op];
      OneRecord(op, c, host);
    }
  }

  lemma {:induction false} RunIsRead(m: Monitor, cs: seq<Call>, host: CString)
    requires Representable(m.registry, cs)
    ensures ReadEvents(RunMsgs(m, cs, host)) == SeenAll(AllEvents(m.registry, cs))
    decreases |cs|
  {
    hide ReadEvents, Representable, BatchMsgs, RecordsOf, Reported, SendBatch;
    if cs == [] {
      NothingRead();
    } else {
      var next := Step(m, cs[0], host);
      StepRepresentable(m.registry, cs);
      CallIsRead(m.registry, m.out.table, cs[0], host);
      RunIsRead(next, cs[1..], host);
      ReadEventsAppend(BatchMsgs(RecordsOf(Reported(m.registry, cs[0]), cs[0], host), m.out.table),
                       RunMsgs(next, cs[1..], host));
    }
  }

  lemma NothingRead()
    ensures ReadEvents([]) == []
  {}

  // From the events of all threads to one trace.

  lemma {:induction false} WithAppend(a: seq<Event>, b: seq<Event>, id: int)
    ensures With(a + b, id) == With(a, id) + With(b, id)
  {
    if a == [] {
      assert a + b == b;
    } else {
      var first := if a[0].traceId == id then [a[0]] else [];
      assert (a + b)[1..] == a[1..] + b;
      assert With(a + b, id) == first + With(a[1..] + b, id);
      WithAppend(a[1..], b, id);
      assert first + (With(a[1..], id) + With(b, id)) == first + With(a[1..], id) + With(b, id);
    }
  }

  lemma {:induction false} WithSeen(es: seq<Event>, id: int)
    ensures With(SeenAll(es), id) == SeenAll(With(es, id))
  {
    if es != [] {
      assert SeenAll(es)[1..] == SeenAll(es[1..]);
      WithSeen(es[1..], id);
    }
  }

  lemma {:induction false} WithNone(es: seq<Event>, id: int)
    requires forall e <- es :: e.traceId != id
    ensures With(es, id) == []
  {
    if es != [] {
      WithNone(es[1..], id);
    }
  }

  lemma {:induction false} WithAll(es: seq<Event>, id: int)
    requires forall e <- es :: e.traceId == id
    ensures With(es, id) == es
  {
    if es != [] {
      WithAll(es[1..], id);
      assert es == [es[0]] + es[1..];
    }
  }

  /** No thread but `thread` has or will get the id. */
  ghost predicate NobodyElses(r: Registry, takers: seq<int>, thread: int, id: int)
  {
    && (forall t <- r.traces :: t != thread ==> r.traces[t].traceId != id)
    && forall other :: other != thread ==> id !in IdsOf(takers, r.nextId, other)
  }

  lemma StaysNobodyElses(r: Registry, cs: seq<Call>, thread: int, id: int)
    requires cs != [] && NobodyElses(r, Takers(r, cs), thread, id)
    ensures NobodyElses(After(r, cs[0]), Takers(After(r, cs[0]), cs[1..]), thread, id)
    ensures cs[0].thread != thread ==> forall e <- Reported(r, cs[0]) :: e.traceId != id
  {
    hide Takers, IdsOf;
    var c, r' := cs[0], After(r, cs[0]);
    AfterNextId(r, c);
    forall other | other != thread
      ensures id !in IdsOf(Takers(r', cs[1..]), r'.nextId, other)
    {
      TakersUnfold(r, cs, other);
    }
    TakersUnfold(r, cs, c.thread);
  }

  lemma {:induction false} OneThreadsTrace(r: Registry, cs: seq<Call>, thread: int, id: int)
    requires NobodyElses(r, Takers(r, cs), thread, id)
    ensures With(AllEvents(r, cs), id) == With(ThreadEvents(r, cs, thread), id)
    decreases |cs|
  {
    hide NobodyElses, Takers, After, Reported, With;
    if cs != [] {
      var c, r' := cs[0], After(r, cs[0]);
      StaysNobodyElses(r, cs, thread, id);
      OneThreadsTrace(r', cs[1..], thread, id);
      WithAppend(Reported(r, c), AllEvents(r', cs[1..]), id);
      if c.thread == thread {
        WithAppend(Reported(r, c), ThreadEvents(r', cs[1..], thread), id);
      } else {
        WithNone(Reported(r, c), id);
        assert [] + ThreadEvents(r', cs[1..], thread) == ThreadEvents(r', cs[1..], thread);
      }
    }
  }

  // One trace among those of a nested thread.

  /** The `k`-th top-level call, alone. */
  function Root(f: Forest, k: nat): Forest
    requires k < Roots(f)
  {
    if k == 0 then Frame(f.cls, f.op, f.inside, Nothing) else Root(f.later, k - 1)
  }

  lemma InsideIs(f: Forest, id: int, o: int)
    ensures forall e <- InsideEvents(f, id, o) :: e.traceId == id
  {
    var es := InsideEvents(f, id, o);
    forall i | 0 <= i < |es|
      ensures es[i].traceId == id
    {
      NumberedWithoutGaps(f, id, o, i);
    }
  }

  /** Among the traces of a nested thread, the one with the `k`-th id is the one of the `k`-th top-level call. */
  lemma {:induction false} TopWith(f: Forest, from: int, k: nat)
    requires k < Roots(f)
    ensures With(TopEvents(f, from), from + k) == [Metadata(from + k)] + InsideEvents(Root(f, k), from + k, 0)
  {
    hide With, InsideEvents;
    var first, rest := Frame(f.cls, f.op, f.inside, Nothing), TopEvents(f.later, from + 1);
    var head := [Metadata(from)] + InsideEvents(first, from, 0);
    assert TopEvents(f, from) == head + rest;
    WithAppend(head, rest, from + k);
    InsideIs(first, from, 0);
    if k == 0 {
      WithAll(head, from);
      LaterIds(f.later, from + 1);
      WithNone(rest, from);
    } else {
      WithNone(head, from + k);
      TopWith(f.later, from + 1, k - 1);
    }
  }

  lemma {:induction false} LaterIds(f: Forest, from: int)
    ensures forall e <- TopEvents(f, from) :: from <= e.traceId < from + Roots(f)
  {
    hide InsideEvents;
    if f.Frame? {
      InsideIs(Frame(f.cls, f.op, f.inside, Nothing), from, 0);
      LaterIds(f.later, from + 1);
    }
  }

  lemma {:induction false} WithRenamed(es: seq<Event>, ids: seq<int>, k: nat)
    requires k < |ids| && Increasing(ids) && forall e <- es :: 0 <= e.traceId < |ids|
    ensures With(Rename(es, ids), ids[k]) == Rename(With(es, k), ids)
  {
    if es != [] {
      assert Rename(es, ids)[1..] == Rename(es[1..], ids);
      WithRenamed(es[1..], ids, k);
      assert es[0] in es;
      var j := es[0].traceId;
      assert ids[j] == ids[k] <==> j == k by {
        assert j < k ==> ids[j] < ids[k];
        assert k < j ==> ids[k] < ids[j];
      }
      RenameAppend(if j == k then [es[0]] else [], With(es[1..], k), ids);
    }
  }

  lemma {:induction false} RenamedInside(f: Forest, ids: seq<int>, k: nat, o: int)
    requires k < |ids|
    ensures Rename(InsideEvents(f, k, o), ids) == InsideEvents(f, ids[k], o)
  {
    hide Rename, InsideEvents;
    if f.Nothing? {
      NoneInside(ids, k, o);
    } else {
      var end := o + 1 + 2 * Size(f.inside);
      InsideParts(f, k, o);
      InsideParts(f, ids[k], o);
      RenamedInside(f.inside, ids, k, o + 1);
      RenamedInside(f.later, ids, k, end + 1);
      var enter, leave := Operation(true, k, o, f.cls, f.op), Operation(false, k, end, f.cls, f.op);
      RenameAppend([enter] + InsideEvents(f.inside, k, o + 1) + [leave], InsideEvents(f.later, k, end + 1), ids);
      RenameAppend([enter] + InsideEvents(f.inside, k, o + 1), [leave], ids);
      RenameAppend([enter], InsideEvents(f.inside, k, o + 1), ids);
      RenamedOne(enter, ids);
      RenamedOne(leave, ids);
    }
  }

  lemma InsideParts(f: Forest, id: int, o: int)
    requires f.Frame?
    ensures var end := o + 1 + 2 * Size(f.inside);
            InsideEvents(f, id, o) ==
            [Operation(true, id, o, f.cls, f.op)] + InsideEvents(f.inside, id, o + 1)
            + [Operation(false, id, end, f.cls, f.op)] + InsideEvents(f.later, id, end + 1)
  {}

  lemma NoneInside(ids: seq<int>, k: nat, o: int)
    requires k < |ids|
    ensures Rename(InsideEvents(Nothing, k, o), ids) == InsideEvents(Nothing, ids[k], o)
  {}

  lemma RenamedOne(e: Event, ids: seq<int>)
    ensures Rename([e], ids) == [RenameEvent(e, ids)]
  {}

  lemma IdsAreItsOwn(val: int, cs: seq<Call>, thread: int)
    ensures var r := Start(val).registry;
            var ids := IdsOf(Takers(r, cs), r.nextId, thread);
            Increasing(ids) && forall id <- ids :: NobodyElses(r, Takers(r, cs), thread, id)
  {
    hide LocalEvents, ThreadEvents, Takers, IdsOf, Rename, CallsOf;
    ThreadsDoNotInterfere(val, cs, thread);
  }

  /** Of three stretches of a thread's events, only the middle one is under the `n`-th id. */
  lemma MiddleWith(a: seq<Event>, m: seq<Event>, b: seq<Event>, ids: seq<int>, n: nat)
    requires n < |ids| && Increasing(ids)
    requires forall e <- a :: 0 <= e.traceId < n
    requires forall e <- m :: 0 <= e.traceId < |ids|
    requires forall e <- b :: n < e.traceId < |ids|
    ensures With(Rename(a + m + b, ids), ids[n]) == Rename(With(m, n), ids)
  {
    hide With, Rename, Increasing;
    var all := a + m + b;
    assert forall e <- all :: 0 <= e.traceId < |ids|;
    WithRenamed(all, ids, n);
    WithAppend(a + m, b, n);
    WithAppend(a, m, n);
    WithNone(a, n);
    WithNone(b, n);
    assert [] + With(m, n) + [] == With(m, n);
  }

  lemma FinishedCallEvents(val: int, cs: seq<Call>, thread: int, before: seq<Mark>, f: Forest, tail: seq<Mark>, k: nat)
    requires CallsOf(cs, thread) == before + (Marks(f) + tail) && Since(before) == [] && k < Roots(f)
    ensures var r, n := Start(val).registry, Started(before) + k;
            var ids := IdsOf(Takers(r, cs), r.nextId, thread);
            && n < |ids|
            && With(AllEvents(r, cs), ids[n]) == [Metadata(ids[n])] + InsideEvents(Root(f, k), ids[n], 0)
  {
    hide TopEvents, InsideEvents, Marks, ThreadEvents, AllEvents, Takers, IdsOf, Rename, CallsOf, With, NobodyElses,
         Root, LocalEvents, LocalRun, Since, Increasing;
    var r, from := Start(val).registry, Started(before);
    var n, idle, next := from + k, Local(None, 0), Local(None, from + Roots(f));
    var ids := IdsOf(Takers(r, cs), r.nextId, thread);
    NestedThreadShape(val, cs, thread, before, f, tail);
    IdsAreItsOwn(val, cs, thread);
    IdsReach(val, cs, thread, before, f, tail);
    assert ids[n] in ids;
    OneThreadsTrace(r, cs, thread, ids[n]);
    LaterIds(f, from);
    MiddleWith(LocalEvents(idle, before), TopEvents(f, from), LocalEvents(next, tail), ids, n);
    TopWith(f, from, k);
    RenameAppend([Metadata(n)], InsideEvents(Root(f, k), n, 0), ids);
    RenamedInside(Root(f, k), ids, n, 0);
    RenamedOne(Metadata(n), ids);
  }

  lemma IdsReach(val: int, cs: seq<Call>, thread: int, before: seq<Mark>, f: Forest, tail: seq<Mark>)
    requires CallsOf(cs, thread) == before + (Marks(f) + tail) && Since(before) == []
    ensures var r, from := Start(val).registry, Started(before);
            var ids := IdsOf(Takers(r, cs), r.nextId, thread);
            && (forall e <- LocalEvents(Local(None, 0), before) :: 0 <= e.traceId < from)
            && (forall e <- LocalEvents(Local(None, from + Roots(f)), tail) :: from + Roots(f) <= e.traceId < |ids|)
  {
    hide LocalEvents, LocalRun, TopEvents, Marks, ThreadEvents, Takers, IdsOf, Rename, CallsOf, Since;
    var from := Started(before);
    ThreadSplits(val, cs, thread, before, Marks(f), tail);
    NestedCallsShape(f, from);
    LocalIds(Local(None, 0), before);
    LocalIds(Local(None, from + Roots(f)), tail);
  }

  lemma RenamedTrace(ms: seq<Mark>, ids: seq<int>, n: nat)
    requires n < |ids|
    ensures Rename(TraceOf(ms, n), ids) == TraceOf(ms, ids[n])
    ensures forall e <- TraceOf(ms, n) :: e.traceId == n
  {}

  lemma AnyTraceEvents(val: int, cs: seq<Call>, thread: int, before: seq<Mark>, during: seq<Mark>, tail: seq<Mark>)
    requires CallsOf(cs, thread) == before + (during + tail) && Since(before) == []
    requires OneTrace(during) && (tail == [] || Since(during) == [])
    ensures var r, n := Start(val).registry, Started(before);
            var ids := IdsOf(Takers(r, cs), r.nextId, thread);
            n < |ids| && With(AllEvents(r, cs), ids[n]) == TraceOf(during, ids[n])
  {
    hide ThreadEvents, AllEvents, Takers, IdsOf, Rename, CallsOf, With, NobodyElses, LocalEvents, LocalRun, Since,
         OneTrace, TraceOf, Increasing;
    var r, n := Start(val).registry, Started(before);
    var ids := IdsOf(Takers(r, cs), r.nextId, thread);
    var idle, l := Local(None, 0), LocalRun(Local(None, n), during);
    ThreadSplits(val, cs, thread, before, during, tail);
    OneTraceEvents(during, n);
    OpenTraceCounts(during, n);
    LocalIds(idle, before);
    LocalIds(l, tail);
    NoCalls(l);
    IdsAreItsOwn(val, cs, thread);
    assert ids[n] in ids;
    OneThreadsTrace(r, cs, thread, ids[n]);
    RenamedTrace(during, ids, n);
    MiddleWith(LocalEvents(idle, before), TraceOf(during, n), LocalEvents(l, tail), ids, n);
    WithAll(TraceOf(during, n), n);
  }

  // Numbering, for any run.

  /** The order indices of the operations under an id. */
  function OrderIndices(es: seq<Event>, id: int): seq<int>
  {
    if es == [] then []
    else (if es[0].Operation? && es[0].traceId == id then [es[0].orderIndex] else []) + OrderIndices(es[1..], id)
  }

  lemma {:induction false} OrderIndicesAppend(a: seq<Event>, b: seq<Event>, id: int)
    ensures OrderIndices(a + b, id) == OrderIndices(a, id) + OrderIndices(b, id)
  {
    if a == [] {
      assert a + b == b;
    } else {
      var first := if a[0].Operation? && a[0].traceId == id then [a[0].orderIndex] else [];
      assert (a + b)[1..] == a[1..] + b;
      assert OrderIndices(a + b, id) == first + OrderIndices(a[1..] + b, id);
      OrderIndicesAppend(a[1..], b, id);
      var x, y := OrderIndices(a[1..], id), OrderIndices(b, id);
      assert first + (x + y) == first + x + y;
    }
  }

  lemma {:induction false} OrderIndicesSeen(es: seq<Event>, id: int)
    ensures |OrderIndices(SeenAll(es), id)| == |OrderIndices(es, id)|
    ensures forall j :: 0 <= j < |OrderIndices(es, id)| ==>
              OrderIndices(SeenAll(es), id)[j] == WireView(OrderIndices(es, id)[j], 4)
  {
    hide WireView;
    if es != [] {
      assert SeenAll(es)[1..] == SeenAll(es[1..]);
      OrderIndicesSeen(es[1..], id);
    }
  }

  /** The next operation under the id will have order index `o`. */
  ghost predicate NextIndex(r: Registry, id: int, o: nat)
  {
    && (forall t <- r.traces :: r.traces[t].traceId < r.nextId)
    && (forall t, u :: t in r.traces && u in r.traces && t != u ==> r.traces[t].traceId != r.traces[u].traceId)
    && (forall t <- r.traces :: r.traces[t].traceId == id ==> r.traces[t].orderIndex + 1 == o)
    && (id >= r.nextId ==> o == 0)
  }

  lemma NextIndexStep(r: Registry, c: Call, id: int, o: nat)
    requires NextIndex(r, id, o)
    ensures OrderIndices(Reported(r, c), id) == if Got(r, c.thread).traceId == id then [o] else []
    ensures NextIndex(After(r, c), id, if Got(r, c.thread).traceId == id then o + 1 else o)
  {
    var t := Got(r, c.thread);
    var op := Operation(c.enter, t.traceId, t.orderIndex + 1, c.cls, c.op);
    assert [op][1..] == [] && [Metadata(t.traceId), op][1..] == [op];
    assert OrderIndices([op], id) == if t.traceId == id then [t.orderIndex + 1] else [];
    assert OrderIndices([Metadata(t.traceId), op], id) == [] + OrderIndices([op], id);
  }

  lemma {:induction false} NumberedFrom(r: Registry, cs: seq<Call>, id: int, o: nat)
    requires NextIndex(r, id, o)
    ensures CountsFrom(OrderIndices(AllEvents(r, cs), id), o)
    decreases |cs|
  {
    hide NextIndex, After, Reported;
    if cs == [] {
      NoIndices(id);
    } else {
      NextIndexStep(r, cs[0], id, o);
      var o' := if Got(r, cs[0].thread).traceId == id then o + 1 else o;
      var first, rest := OrderIndices(Reported(r, cs[0]), id), OrderIndices(AllEvents(After(r, cs[0]), cs[1..]), id);
      NumberedFrom(After(r, cs[0]), cs[1..], id, o');
      OrderIndicesAppend(Reported(r, cs[0]), AllEvents(After(r, cs[0]), cs[1..]), id);
      CountsOn(first, rest, o, o');
    }
  }

  /** The numbers from `o` on. */
  ghost predicate CountsFrom(s: seq<int>, o: int)
  {
    forall j :: 0 <= j < |s| ==> s[j] == o + j
  }

  lemma CountsOn(first: seq<int>, rest: seq<int>, o: nat, o': nat)
    requires o <= o' <= o + 1 && first == (if o' > o then [o] else [])
    requires CountsFrom(rest, o')
    ensures CountsFrom(first + rest, o)
  {}

  lemma NoIndices(id: int)
    ensures OrderIndices([], id) == []
  {}

  // End to end.

  lemma StreamIsRead(val: int, cs: seq<Call>, host: CString)
    requires |Run(Start(val), cs, host).out.table| <= INT32_LIMIT && IdsFit(val, cs)
    ensures var ms := Decode(Run(Start(val), cs, host).out.wire, []);
            ms.Some? && ReadEvents(ms.value) == SeenAll(AllEvents(Start(val).registry, cs))
  {
    hide Run, RunMsgs, Decode, AnnouncedMsgs, ReadEvents, AllEvents;
    StreamDecodes(val, cs, host);
    var m := Start(val);
    ReadEventsAppend(AnnouncedMsgs(REGISTERED.table, 0), RunMsgs(m, cs, host));
    NoEventsAnnounced(REGISTERED.table, 0);
    RunIsRead(m, cs, host);
  }

  /** End to end, for any run and any id: the operation records a reader finds under the id are numbered without gaps
      from 0, as far as their fields of 32 bits can tell, be the trace finished, open or opened by leaving. */
  lemma DecodedOrderIndices(val: int, cs: seq<Call>, host: CString, id: int)
    requires |Run(Start(val), cs, host).out.table| <= INT32_LIMIT && IdsFit(val, cs)
    ensures var ms := Decode(Run(Start(val), cs, host).out.wire, []);
            && ms.Some?
            && var s := OrderIndices(ReadEvents(ms.value), id);
               forall j :: 0 <= j < |s| ==> s[j] == WireView(j, 4)
  {
    hide Run, Decode, ReadEvents, AllEvents, OrderIndices, IdsFit, WireView;
    StreamIsRead(val, cs, host);
    OrderIndicesSeen(AllEvents(Start(val).registry, cs), id);
    NumberedFrom(Start(val).registry, cs, id, 0);
  }

  /** End to end, for any trace of any run: the calls of a thread that belong to one trace, finished or still open, are
      found under an id of its own, behind one metadata record unless the trace was opened by leaving. */
  lemma DecodedTrace(val: int, cs: seq<Call>, host: CString, thread: int, before: seq<Mark>, during: seq<Mark>,
                     tail: seq<Mark>)
    requires |Run(Start(val), cs, host).out.table| <= INT32_LIMIT && IdsFit(val, cs)
    requires CallsOf(cs, thread) == before + (during + tail) && Since(before) == []
    requires OneTrace(during) && (tail == [] || Since(during) == [])
    ensures var ms, r, n := Decode(Run(Start(val), cs, host).out.wire, []), Start(val).registry, Started(before);
            var ids := IdsOf(Takers(r, cs), r.nextId, thread);
            ms.Some? && n < |ids| && With(ReadEvents(ms.value), ids[n]) == SeenAll(TraceOf(during, ids[n]))
  {
    hide Run, Decode, ReadEvents, AllEvents, With, Takers, IdsOf, CallsOf, IdsFit, TraceOf, Since, OneTrace, Started;
    var r := Start(val).registry;
    StreamIsRead(val, cs, host);
    AnyTraceEvents(val, cs, thread, before, during, tail);
    WithSeen(AllEvents(r, cs), IdsOf(Takers(r, cs), r.nextId, thread)[Started(before)]);
  }

  /** End to end, for finished calls of any thread: whatever the thread did before and does after them, and whatever
      other threads do meanwhile, for the `k`-th of some properly nested top-level calls a reader of the bytes finds,
      under a trace id of its own, one metadata record and then the numbered operations of the call's tree. */
  lemma DecodedTraceIsTree(val: int, cs: seq<Call>, host: CString, thread: int, before: seq<Mark>, f: Forest,
                           tail: seq<Mark>, k: nat)
    requires |Run(Start(val), cs, host).out.table| <= INT32_LIMIT && IdsFit(val, cs)
    requires CallsOf(cs, thread) == before + (Marks(f) + tail) && Since(before) == [] && k < Roots(f)
    ensures var ms, r, n := Decode(Run(Start(val), cs, host).out.wire, []), Start(val).registry, Started(before) + k;
            var ids := IdsOf(Takers(r, cs), r.nextId, thread);
            && ms.Some? && n < |ids|
            && With(ReadEvents(ms.value), ids[n]) ==
               [Metadata(ids[n])] + SeenAll(InsideEvents(Root(f, k), ids[n], 0))
  {
    hide Run, Decode, ReadEvents, AllEvents, With, InsideEvents, Takers, IdsOf, CallsOf, Marks, Roots, Root, IdsFit,
         Since, Started;
    var r := Start(val).registry;
    var ids := IdsOf(Takers(r, cs), r.nextId, thread);
    StreamIsRead(val, cs, host);
    FinishedCallEvents(val, cs, thread, before, f, tail, k);
    var id := ids[Started(before) + k];
    WithSeen(AllEvents(r, cs), id);
    var tree := InsideEvents(Root(f, k), id, 0);
    assert SeenAll([Metadata(id)] + tree) == [Metadata(id)] + SeenAll(tree);
  }
}
