/** What the bytes can tell any reader: when another run writes the very same bytes. */
module WireEvidence {
  import opened Bytes
  import opened Interning
  import opened Wire
  import opened Decoder
  import opened Probes
  import opened Stream
  import opened ThreadView

  // Another run with the same bytes.

  /** The call belongs to a trace that `thread` opens, or has opened, by leaving. */
  predicate Moves(r: Registry, c: Call, thread: int, orphan: bool)
  {
    c.thread == thread && (orphan || (thread !in r.traces && !c.enter))
  }

  predicate OrphanAfter(r: Registry, c: Call, thread: int, orphan: bool)
  {
    if c.thread == thread then Moves(r, c, thread, orphan) && thread in After(r, c).traces else orphan
  }

  /** The calls, but for the traces that `thread` opens by leaving, which `other` makes instead. */
  function Reassigned(r: Registry, cs: seq<Call>, thread: int, other: int, orphan: bool): (s: seq<Call>)
    ensures |s| == |cs|
    decreases |cs|
  {
    if cs == [] then []
    else
      [if Moves(r, cs[0], thread, orphan) then cs[0].(thread := other) else cs[0]]
      + Reassigned(After(r, cs[0]), cs[1..], thread, other, OrphanAfter(r, cs[0], thread, orphan))
  }

  /** `q` is `r` with the open orphan trace of `thread` in the hands of `other`. */
  ghost predicate Swapped(r: Registry, q: Registry, thread: int, other: int, orphan: bool)
  {
    && thread != other && other !in r.traces && r.nextId == q.nextId
    && (forall t <- r.traces :: r.traces[t].orderIndex >= 0)
    && (orphan ==> thread in r.traces)
    && q.traces == if orphan then (r.traces - {thread})[other := r.traces[thread]] else r.traces
  }

  /** The records of a probe call do not show which thread made it, unless it reports metadata. */
  lemma SwapStep(r: Registry, q: Registry, c: Call, host: CString, thread: int, other: int, orphan: bool)
    requires Swapped(r, q, thread, other, orphan) && c.thread != other
    ensures var c' := if Moves(r, c, thread, orphan) then c.(thread := other) else c;
            && Swapped(After(r, c), After(q, c'), thread, other, OrphanAfter(r, c, thread, orphan))
            && RecordsOf(Reported(q, c'), c', host) == RecordsOf(Reported(r, c), c, host)
  {
    hide RecordsOf, RecordOf;
    var c' := if Moves(r, c, thread, orphan) then c.(thread := other) else c;
    assert Reported(q, c') == Reported(r, c);
    if Moves(r, c, thread, orphan) {
      var t := Got(r, thread);
      var op := Operation(c.enter, t.traceId, t.orderIndex + 1, c.cls, c.op);
      assert Reported(r, c) == [op];
      SameRecord(op, c, c', host);
    }
    assert After(q, c').traces ==
           if OrphanAfter(r, c, thread, orphan)
           then (After(r, c).traces - {thread})[other := After(r, c).traces[thread]] else After(r, c).traces;
  }

  lemma SameRecord(e: Event, c: Call, c': Call, host: CString)
    requires e.Operation? && c' == c.(thread := c'.thread)
    ensures RecordsOf([e], c, host) == RecordsOf([e], c', host)
  {}

  lemma {:induction false} SameOutput(m: Monitor, q: Monitor, cs: seq<Call>, host: CString, thread: int, other: int,
                                      orphan: bool)
    requires Swapped(m.registry, q.registry, thread, other, orphan) && q.out == m.out
    requires forall c <- cs :: c.thread != other
    ensures Run(q, Reassigned(m.registry, cs, thread, other, orphan), host).out == Run(m, cs, host).out
    decreases |cs|
  {
    hide Swapped, SendBatch, RecordsOf, After, Reported, OrphanAfter, Moves;
    if cs != [] {
      var c := cs[0];
      var c' := if Moves(m.registry, c, thread, orphan) then c.(thread := other) else c;
      var orphan' := OrphanAfter(m.registry, c, thread, orphan);
      SwapStep(m.registry, q.registry, c, host, thread, other, orphan);
      var rest := Reassigned(After(m.registry, c), cs[1..], thread, other, orphan');
      assert ([c'] + rest)[1..] == rest;
      SameOutput(Step(m, c, host), Step(q, c', host), cs[1..], host, thread, other, orphan');
    }
  }

  /** The other run makes no more calls on `thread`. */
  lemma {:induction false} KeepsAtMost(r: Registry, cs: seq<Call>, thread: int, other: int, orphan: bool)
    requires thread != other
    ensures |CallsOf(Reassigned(r, cs, thread, other, orphan), thread)| <= |CallsOf(cs, thread)|
    decreases |cs|
  {
    hide After, OrphanAfter;
    if cs != [] {
      KeepsAtMost(After(r, cs[0]), cs[1..], thread, other, OrphanAfter(r, cs[0], thread, orphan));
      FirstReassigned(r, cs, thread, other, orphan);
    }
  }

  lemma FirstReassigned(r: Registry, cs: seq<Call>, thread: int, other: int, orphan: bool)
    requires cs != [] && thread != other
    ensures var rest := Reassigned(After(r, cs[0]), cs[1..], thread, other, OrphanAfter(r, cs[0], thread, orphan));
            |CallsOf(Reassigned(r, cs, thread, other, orphan), thread)| ==
            |CallsOf(rest, thread)| + (if cs[0].thread == thread && !Moves(r, cs[0], thread, orphan) then 1 else 0)
    ensures |CallsOf(cs, thread)| == |CallsOf(cs[1..], thread)| + (if cs[0].thread == thread then 1 else 0)
  {
    hide After, OrphanAfter;
    var rest := Reassigned(After(r, cs[0]), cs[1..], thread, other, OrphanAfter(r, cs[0], thread, orphan));
    var c' := if Moves(r, cs[0], thread, orphan) then cs[0].(thread := other) else cs[0];
    assert ([c'] + rest)[1..] == rest;
  }

  /** ... and fewer, when `thread` leaves an operation it has not entered. */
  lemma {:induction false} UnderMoves(r: Registry, cs: seq<Call>, thread: int, other: int, depth: nat)
    requires thread != other && !NeverUnder(CallsOf(cs, thread), depth)
    requires if thread in r.traces then r.traces[thread].stack == depth > 0 else depth == 0
    ensures |CallsOf(Reassigned(r, cs, thread, other, false), thread)| < |CallsOf(cs, thread)|
    decreases |cs|
  {
    if cs != [] {
      var c := cs[0];
      FirstCall(cs, thread);
      FirstReassigned(r, cs, thread, other, false);
      if Moves(r, c, thread, false) {
        KeepsAtMost(After(r, c), cs[1..], thread, other, OrphanAfter(r, c, thread, false));
      } else {
        var depth' := if c.thread != thread then depth else if c.enter then depth + 1 else depth - 1;
        UnderMoves(After(r, c), cs[1..], thread, other, depth');
      }
    }
  }

  /** No reader can tell: for a thread that leaves an operation it has not entered, another run writes the same bytes in
      which that thread makes fewer calls, and a thread of any unused id makes them. */
  lemma BytesDoNotTell(val: int, cs: seq<Call>, host: CString, thread: int, other: int)
    requires !NeverUnder(CallsOf(cs, thread), 0)
    requires thread != other && forall c <- cs :: c.thread != other
    ensures var cs' := Reassigned(Start(val).registry, cs, thread, other, false);
            && Run(Start(val), cs', host).out == Run(Start(val), cs, host).out
            && |CallsOf(cs', thread)| < |CallsOf(cs, thread)|
  {
    hide Run, Reassigned, CallsOf, NeverUnder;
    SameOutput(Start(val), Start(val), cs, host, thread, other, false);
    UnderMoves(Start(val).registry, cs, thread, other, 0);
  }

  // Counting the calls.

  /** The number of operation records among the messages. */
  function Operations(ms: seq<Msg>): nat
  {
    if ms == [] then 0 else (if IsOperation(ms[0]) then 1 else 0) + Operations(ms[1..])
  }

  lemma {:induction false} OperationsAppend(a: seq<Msg>, b: seq<Msg>)
    ensures Operations(a + b) == Operations(a) + Operations(b)
  {
    if a == [] {
      assert a + b == b;
    } else {
      assert (a + b)[1..] == a[1..] + b;
      OperationsAppend(a[1..], b);
    }
  }

  lemma {:induction false} AnnouncementsCountNothing(ss: seq<CString>, from: nat)
    ensures Operations(AnnouncedMsgs(ss, from)) == 0
    decreases |ss|
  {
    if ss != [] {
      AnnouncementsCountNothing(ss[1..], from + 1);
    }
  }

  lemma EventCounts(e: Event, c: Call, host: CString)
    ensures Operations([RecordedMsg(RecordOf(e, c, host))]) == if e.Operation? then 1 else 0
  {
    var m := RecordedMsg(RecordOf(e, c, host));
    assert Operations([]) == 0 && [m][1..] == [];
  }

  lemma CallCounts(r: Registry, table: Table, c: Call, host: CString)
    ensures Operations(BatchMsgs(RecordsOf(Reported(r, c), c, host), table)) == 1
  {
    hide Operations, AnnouncedMsgs, NewNames, RecordOf, RecordedMsg;
    var es, t := Reported(r, c), Got(r, c.thread);
    var rs := RecordsOf(es, c, host);
    var ss := NewNames(BatchFields(rs), table);
    OperationsAppend(AnnouncedMsgs(ss, |table|), RecordedMsgs(rs));
    AnnouncementsCountNothing(ss, |table|);
    var op := Operation(c.enter, t.traceId, t.orderIndex + 1, c.cls, c.op);
    EventCounts(op, c, host);
    if c.enter && t.orderIndex == -1 {
      var meta := Metadata(t.traceId);
      assert es == [meta, op];
      TwoRecords(meta, op, c, host);
      EventCounts(meta, c, host);
      var first, second := RecordedMsg(RecordOf(meta, c, host)), RecordedMsg(RecordOf(op, c, host));
      OperationsAppend([first], [second]);
      assert [first] + [second] == [first, second];
    } else {
      assert es == [op];
      OneRecord(op, c, host);
    }
  }

  /** Every call leaves one operation record. */
  lemma {:induction false} OneOperationACall(m: Monitor, cs: seq<Call>, host: CString)
    ensures Operations(RunMsgs(m, cs, host)) == |cs|
    decreases |cs|
  {
    hide Operations, BatchMsgs, RecordsOf, Reported, Step;
    if cs == [] {
      NoOperations();
    } else {
      var next := Step(m, cs[0], host);
      CallCounts(m.registry, m.out.table, cs[0], host);
      OneOperationACall(next, cs[1..], host);
      OperationsAppend(BatchMsgs(RecordsOf(Reported(m.registry, cs[0]), cs[0], host), m.out.table),
                       RunMsgs(next, cs[1..], host));
    }
  }

  lemma NoOperations()
    ensures Operations([]) == 0
  {}

  function ThreadsOf(cs: seq<Call>): (ts: seq<int>)
    ensures |ts| == |cs|
  {
    if cs == [] then [] else [cs[0].thread] + ThreadsOf(cs[1..])
  }

  /** How often each thread calls. */
  function CallCount(cs: seq<Call>): (m: multiset<int>)
    ensures |m| == |cs|
  {
    if cs == [] then multiset{} else multiset{cs[0].thread} + CallCount(cs[1..])
  }

  lemma {:induction false} CallsOfCounts(cs: seq<Call>, thread: int)
    ensures CallCount(cs)[thread] == |CallsOf(cs, thread)|
  {
    if cs != [] {
      CallsOfCounts(cs[1..], thread);
    }
  }

  ghost predicate CallsAtMost(a: seq<Call>, b: seq<Call>)
  {
    forall t :: |CallsOf(a, t)| <= |CallsOf(b, t)|
  }

  lemma CountsAtMost(a: seq<Call>, b: seq<Call>)
    requires CallsAtMost(a, b)
    ensures CallCount(a) <= CallCount(b)
  {
    hide CallCount, CallsOf;
    var x, y := CallCount(a), CallCount(b);
    forall t
      ensures x[t] <= y[t]
    {
      CallsOfCounts(a, t);
      CallsOfCounts(b, t);
    }
  }

  /** More calls on one thread and no fewer on any other are more calls. */
  lemma MoreCalls(a: seq<Call>, b: seq<Call>, thread: int)
    requires CallsAtMost(a, b) && |CallsOf(a, thread)| < |CallsOf(b, thread)|
    ensures |a| < |b|
  {
    hide CallCount, CallsOf, CallsAtMost;
    CountsAtMost(a, b);
    CallsOfCounts(a, thread);
    CallsOfCounts(b, thread);
    Smaller(CallCount(a), CallCount(b), thread);
  }

  lemma Smaller(x: multiset<int>, y: multiset<int>, t: int)
    requires x <= y && x[t] < y[t]
    ensures |x| < |y|
  {
    var more := y - x;
    assert forall u :: more[u] == y[u] - x[u];
    assert y == x + more;
    assert more == (more - multiset{t}) + multiset{t};
  }

  // What the bytes determine.

  /** A run the library can make: thread ids are of type `int`, and trace ids and string ids fit their fields. */
  ghost predicate Fits(val: int, cs: seq<Call>, host: CString)
  {
    && IdsFit(val, cs) && |Run(Start(val), cs, host).out.table| <= INT32_LIMIT
    && forall c <- cs :: InRange(c.thread, 4)
  }

  /** Some thread id makes no call. */
  ghost predicate SomeIdUnused(cs: seq<Call>)
  {
    exists other :: IsUnused(cs, other)
  }

  ghost predicate IsUnused(cs: seq<Call>, other: int)
  {
    InRange(other, 4) && forall c <- cs :: c.thread != other
  }

  lemma StreamCounts(val: int, cs: seq<Call>, host: CString)
    requires Fits(val, cs, host)
    ensures var ms := Decode(Run(Start(val), cs, host).out.wire, []); ms.Some? && Operations(ms.value) == |cs|
  {
    hide Run, RunMsgs, Decode, AnnouncedMsgs, Operations;
    StreamDecodes(val, cs, host);
    AnnouncementsCountNothing(REGISTERED.table, 0);
    OneOperationACall(Start(val), cs, host);
    OperationsAppend(AnnouncedMsgs(REGISTERED.table, 0), RunMsgs(Start(val), cs, host));
  }

  lemma ReaderSeesAtMost(val: int, cs: seq<Call>, host: CString, thread: int)
    requires Fits(val, cs, host)
    ensures var ms := Decode(Run(Start(val), cs, host).out.wire, []);
            && ms.Some? && |ReadThread(ms.value, thread, {})| <= |CallsOf(cs, thread)|
            && (!NeverUnder(CallsOf(cs, thread), 0) ==> |ReadThread(ms.value, thread, {})| < |CallsOf(cs, thread)|)
  {
    hide Run, RunMsgs, Decode, ReadThread, AnnouncedMsgs, NeverUnder, CallsOf;
    StreamDecodes(val, cs, host);
    var m := Start(val);
    SkipsAnnouncements(REGISTERED.table, 0, RunMsgs(m, cs, host), thread, {});
    ReadsAtMost(m, cs, host, thread, {});
    if !NeverUnder(CallsOf(cs, thread), 0) {
      UnderLoses(m, cs, host, thread, {}, 0);
    }
  }

  /** Of two runs with the same bytes, if no thread of the first goes under, none of the second does, and both make the
      same calls on every thread. */
  lemma SameBytesSameCalls(val: int, cs: seq<Call>, host: CString, val': int, cs': seq<Call>,
                           host': CString, thread: int)
    requires Fits(val, cs, host) && Fits(val', cs', host')
    requires forall t :: NeverUnder(CallsOf(cs, t), 0)
    requires Run(Start(val'), cs', host').out.wire == Run(Start(val), cs, host).out.wire
    ensures CallsOf(cs', thread) == CallsOf(cs, thread)
  {
    hide Run, Decode, ReadThread, NeverUnder, CallsOf, Operations;
    StreamCounts(val, cs, host);
    StreamCounts(val', cs', host');
    forall t
      ensures |CallsOf(cs, t)| <= |CallsOf(cs', t)|
    {
      ReaderRecoversThread(val, cs, host, t);
      ReaderSeesAtMost(val', cs', host', t);
    }
    ReaderRecoversThread(val, cs, host, thread);
    ReaderRecoversThread(val', cs', host', thread);
    ReaderSeesAtMost(val', cs', host', thread);
    if !NeverUnder(CallsOf(cs', thread), 0) {
      MoreCalls(cs, cs', thread);
    }
  }

  lemma {:induction false} Unused(ts: set<int>, low: int, n: nat) returns (x: int)
    requires |ts| < n
    ensures low <= x < low + n && x !in ts
  {
    if low + n - 1 in ts {
      x := Unused(ts - {low + n - 1}, low, n - 1);
    } else {
      x := low + n - 1;
    }
  }

  lemma {:induction false} MembersAtMost(s: seq<int>)
    ensures |set x | x in s| <= |s|
  {
    if s == [] {
      assert (set x | x in s) == {};
    } else {
      MembersAtMost(s[1..]);
      assert s == [s[0]] + s[1..];
      assert (set x | x in s) == {s[0]} + (set x | x in s[1..]);
    }
  }

  lemma {:induction false} ThreadsListed(cs: seq<Call>)
    ensures forall i :: 0 <= i < |cs| ==> cs[i].thread == ThreadsOf(cs)[i]
  {
    if cs != [] {
      ThreadsListed(cs[1..]);
    }
  }

  /** Fewer than 2^32 calls leave a thread id unused. */
  lemma FewCallsLeaveAnId(cs: seq<Call>)
    requires |cs| < 0x1_0000_0000
    ensures SomeIdUnused(cs)
  {
    Base4();
    var ts := set t | t in ThreadsOf(cs);
    MembersAtMost(ThreadsOf(cs));
    var other := Unused(ts, -0x8000_0000, 0x1_0000_0000);
    ThreadsListed(cs);
    forall c <- cs
      ensures c.thread != other
    {
      var i :| 0 <= i < |cs| && cs[i] == c;
      assert ThreadsOf(cs)[i] in ts;
    }
    assert IsUnused(cs, other);
  }

  lemma {:induction false} ReassignedOnly(r: Registry, cs: seq<Call>, thread: int, other: int, orphan: bool)
    ensures forall c <- Reassigned(r, cs, thread, other, orphan) :: c.thread == other || c in cs
    decreases |cs|
  {
    hide After, OrphanAfter, Moves;
    if cs != [] {
      ReassignedOnly(After(r, cs[0]), cs[1..], thread, other, OrphanAfter(r, cs[0], thread, orphan));
    }
  }

  lemma {:induction false} CallerIsThere(cs: seq<Call>, thread: int)
    requires CallsOf(cs, thread) != []
    ensures exists c <- cs :: c.thread == thread
  {
    if cs[0].thread != thread {
      CallerIsThere(cs[1..], thread);
      var c :| c in cs[1..] && c.thread == thread;
      assert c in cs;
    } else {
      assert cs[0] in cs;
    }
  }

  /** The same bytes from other calls, for a run in which a thread goes under. */
  lemma OtherCalls(val: int, cs: seq<Call>, host: CString, thread: int) returns (cs': seq<Call>)
    requires Fits(val, cs, host) && SomeIdUnused(cs) && !NeverUnder(CallsOf(cs, thread), 0)
    ensures Fits(val, cs', host) && Run(Start(val), cs', host).out == Run(Start(val), cs, host).out
    ensures CallsOf(cs', thread) != CallsOf(cs, thread)
  {
    hide Run, Reassigned, CallsOf;
    Base4();
    var other :| IsUnused(cs, other);
    CallerIsThere(cs, thread);
    BytesDoNotTell(val, cs, host, thread, other);
    cs' := Reassigned(Start(val).registry, cs, thread, other, false);
    ReassignedOnly(Start(val).registry, cs, thread, other, false);
  }

  /** For any run that leaves some thread id unused: among all runs the library can make, on whatever host, its bytes
      determine the calls of every thread if and only if no thread leaves an operation it has not entered. */
  lemma BytesTellExactly(val: int, cs: seq<Call>, host: CString)
    requires Fits(val, cs, host) && SomeIdUnused(cs)
    ensures (forall thread :: NeverUnder(CallsOf(cs, thread), 0)) <==>
            forall val', cs', host', thread ::
              Fits(val', cs', host') && Run(Start(val'), cs', host').out.wire == Run(Start(val), cs, host).out.wire
              ==> CallsOf(cs', thread) == CallsOf(cs, thread)
  {
    hide Run, NeverUnder, CallsOf, Fits, SomeIdUnused;
    if forall thread :: NeverUnder(CallsOf(cs, thread), 0) {
      forall val', cs', host', thread | Fits(val', cs', host')
                                        && Run(Start(val'), cs', host').out.wire == Run(Start(val), cs, host).out.wire
        ensures CallsOf(cs', thread) == CallsOf(cs, thread)
      {
        SameBytesSameCalls(val, cs, host, val', cs', host', thread);
      }
    } else {
      var thread :| !NeverUnder(CallsOf(cs, thread), 0);
      var cs' := OtherCalls(val, cs, host, thread);
    }
  }
}
