/** One thread on its own: numbering, nesting and retirement of its traces. */
module ThreadRun {
  import opened Interning
  import opened Wire
  import opened Probes
  import opened ThreadView
  import opened CallTree

  /** A thread's own view: its open trace, and how many traces it has started.  Trace ids are counted per thread. */
  datatype Local = Local(open: Option<TraceData>, count: nat)

  function Opened(l: Local): TraceData
  {
    match l.open case Some(t) => t case None => TraceData(l.count, -1, 0)
  }

  function LocalStep(l: Local, m: Mark): Local
  {
    var t := Counted(Opened(l), m.enter);
    Local(if !m.enter && t.stack == 0 then None else Some(t), if l.open.Some? then l.count else l.count + 1)
  }

  function LocalReported(l: Local, m: Mark): seq<Event>
  {
    var t := Opened(l);
    (if m.enter && t.orderIndex == -1 then [Metadata(t.traceId)] else [])
    + [Operation(m.enter, t.traceId, t.orderIndex + 1, m.cls, m.op)]
  }

  function LocalRun(l: Local, ms: seq<Mark>): Local
    decreases |ms|
  {
    if ms == [] then l else LocalRun(LocalStep(l, ms[0]), ms[1..])
  }

  function LocalEvents(l: Local, ms: seq<Mark>): seq<Event>
    decreases |ms|
  {
    if ms == [] then [] else LocalReported(l, ms[0]) + LocalEvents(LocalStep(l, ms[0]), ms[1..])
  }

  // Nested calls.

  /** The events of calls inside trace `id`, numbered from `o`. */
  function InsideEvents(f: Forest, id: int, o: int): (es: seq<Event>)
    ensures |es| == 2 * Size(f)
  {
    match f
    case Nothing => []
    case Frame(cls, op, inside, later) =>
      var end := o + 1 + 2 * Size(inside);
      [Operation(true, id, o, cls, op)] + InsideEvents(inside, id, o + 1)
      + [Operation(false, id, end, cls, op)] + InsideEvents(later, id, end + 1)
  }

  /** The events of one trace: metadata once, then a balanced word of operations. */
  function TraceEvents(cls: CString, op: CString, inside: Forest, id: int): seq<Event>
  {
    [Metadata(id)] + InsideEvents(Frame(cls, op, inside, Nothing), id, 0)
  }

  /** The events of top-level calls: one trace each. */
  function TopEvents(f: Forest, id: int): seq<Event>
  {
    match f
    case Nothing => []
    case Frame(cls, op, inside, later) => TraceEvents(cls, op, inside, id) + TopEvents(later, id + 1)
  }

  /** The order indices of a trace run without gaps, and all its events carry its id. */
  lemma {:induction false} NumberedWithoutGaps(f: Forest, id: int, o: int, i: nat)
    requires i < 2 * Size(f)
    ensures var e := InsideEvents(f, id, o)[i]; e.Operation? && e.orderIndex == o + i && e.traceId == id
  {
    var n := 2 * Size(f.inside);
    var inside, later := InsideEvents(f.inside, id, o + 1), InsideEvents(f.later, id, o + n + 2);
    FourParts([Operation(true, id, o, f.cls, f.op)], inside, [Operation(false, id, o + 1 + n, f.cls, f.op)], later, i);
    if 0 < i <= n {
      NumberedWithoutGaps(f.inside, id, o + 1, i - 1);
    } else if i > n + 1 {
      NumberedWithoutGaps(f.later, id, o + n + 2, i - n - 2);
    }
  }

  lemma FourParts<T>(a: seq<T>, b: seq<T>, c: seq<T>, d: seq<T>, i: nat)
    requires |a| == |c| == 1 && i < |b| + |d| + 2
    ensures (a + b + c + d)[i] ==
            if i == 0 then a[0] else if i <= |b| then b[i - 1] else if i == |b| + 1 then c[0] else d[i - |b| - 2]
  {}

  /** Calls inside an open trace. */
  lemma {:induction false} InsideRun(f: Forest, l: Local, tail: seq<Mark>)
    requires l.open.Some? && l.open.value.stack > 0 && l.open.value.orderIndex >= 0
    ensures var t := l.open.value;
            var l' := Local(Some(TraceData(t.traceId, t.orderIndex + 2 * Size(f), t.stack)), l.count);
            && LocalRun(l, Marks(f) + tail) == LocalRun(l', tail)
            && LocalEvents(l, Marks(f) + tail) == InsideEvents(f, t.traceId, t.orderIndex + 1) + LocalEvents(l', tail)
  {
    hide LocalRun, LocalEvents, InsideEvents, Marks, LocalStep, LocalReported;
    match f
    case Nothing =>
      NoMarks(tail);
      NoEvents(l.open.value.traceId, l.open.value.orderIndex + 1, LocalEvents(l, tail));
    case Frame(cls, op, inside, later) =>
      var t, o, n := l.open.value, l.open.value.orderIndex + 1, 2 * Size(inside);
      var enter, leave := Mark(true, cls, op), Mark(false, cls, op);
      var after := Marks(later) + tail;
      var back := [leave] + after;
      var l1 := Local(Some(TraceData(t.traceId, o, t.stack + 1)), l.count);
      var l2 := Local(Some(TraceData(t.traceId, o + n, t.stack + 1)), l.count);
      var l3 := Local(Some(TraceData(t.traceId, o + 1 + n, t.stack)), l.count);
      var l4 := Local(Some(TraceData(t.traceId, o + 1 + n + 2 * Size(later), t.stack)), l.count);
      MarksUnfold(cls, op, inside, later, tail);
      StepInside(l, enter);
      OneStep(l, enter, Marks(inside) + back);
      InsideRun(inside, l1, back);
      StepInside(l2, leave);
      OneStep(l2, leave, after);
      InsideRun(later, l3, tail);
      InsideUnfolds(cls, op, inside, later, t.traceId, o, LocalEvents(l4, tail));
  }

  lemma StepInside(l: Local, m: Mark)
    requires l.open.Some? && l.open.value.orderIndex >= 0 && (m.enter || l.open.value.stack > 1)
    ensures var t := l.open.value;
            && LocalStep(l, m) == Local(Some(Counted(t, m.enter)), l.count)
            && LocalReported(l, m) == [Operation(m.enter, t.traceId, t.orderIndex + 1, m.cls, m.op)]
  {}

  lemma NoMarks(tail: seq<Mark>)
    ensures Marks(Nothing) + tail == tail
  {}

  lemma MarksUnfold(cls: CString, op: CString, inside: Forest, later: Forest, tail: seq<Mark>)
    ensures Marks(Frame(cls, op, inside, later)) + tail ==
            [Mark(true, cls, op)] + (Marks(inside) + ([Mark(false, cls, op)] + (Marks(later) + tail)))
  {}

  lemma NoCalls(l: Local)
    ensures LocalRun(l, []) == l && LocalEvents(l, []) == []
  {}

  lemma NoTops(id: int)
    ensures TopEvents(Nothing, id) == []
  {}

  lemma NoEvents(id: int, o: int, es: seq<Event>)
    ensures InsideEvents(Nothing, id, o) + es == es
  {}

  lemma InsideUnfolds(cls: CString, op: CString, inside: Forest, later: Forest, id: int, o: int, es: seq<Event>)
    ensures var end := o + 1 + 2 * Size(inside);
            InsideEvents(Frame(cls, op, inside, later), id, o) + es ==
            [Operation(true, id, o, cls, op)]
            + (InsideEvents(inside, id, o + 1)
               + ([Operation(false, id, end, cls, op)] + (InsideEvents(later, id, end + 1) + es)))
  {
    var end := o + 1 + 2 * Size(inside);
    Assemble([Operation(true, id, o, cls, op)], InsideEvents(inside, id, o + 1), [Operation(false, id, end, cls, op)],
             InsideEvents(later, id, end + 1), es);
  }

  lemma TopUnfolds(cls: CString, op: CString, inside: Forest, later: Forest, id: int)
    ensures TopEvents(Frame(cls, op, inside, later), id) ==
            [Metadata(id)] + [Operation(true, id, 0, cls, op)]
            + (InsideEvents(inside, id, 1)
               + ([Operation(false, id, 1 + 2 * Size(inside), cls, op)] + TopEvents(later, id + 1)))
  {
    hide InsideEvents;
    var rest := TopEvents(later, id + 1);
    InsideUnfolds(cls, op, inside, Nothing, id, 0, rest);
    NoEvents(id, 2 * Size(inside) + 2, rest);
    Behind([Metadata(id)], InsideEvents(Frame(cls, op, inside, Nothing), id, 0), rest,
           [Operation(true, id, 0, cls, op)],
           InsideEvents(inside, id, 1) + ([Operation(false, id, 1 + 2 * Size(inside), cls, op)] + rest));
  }

  lemma Behind<T>(m: seq<T>, a: seq<T>, b: seq<T>, c: seq<T>, d: seq<T>)
    requires a + b == c + d
    ensures m + a + b == m + c + d
  {
    assert m + a + b == m + (a + b);
    assert m + c + d == m + (c + d);
  }

  lemma Assemble<T>(a: seq<T>, b: seq<T>, c: seq<T>, d: seq<T>, e: seq<T>)
    ensures a + (b + (c + (d + e))) == a + b + c + d + e
  {}

  lemma OneStep(l: Local, m: Mark, rest: seq<Mark>)
    ensures LocalRun(l, [m] + rest) == LocalRun(LocalStep(l, m), rest)
    ensures LocalEvents(l, [m] + rest) == LocalReported(l, m) + LocalEvents(LocalStep(l, m), rest)
  {
    assert ([m] + rest)[1..] == rest;
  }

  /** The shape of traces: properly nested calls of an idle thread report, for each top-level call, one metadata
      record and then the call tree's events numbered from 0; each trace is retired exactly at its end. */
  lemma {:induction false} NestedCallsShape(f: Forest, k: nat)
    ensures LocalEvents(Local(None, k), Marks(f)) == TopEvents(f, k)
    ensures LocalRun(Local(None, k), Marks(f)) == Local(None, k + Roots(f))
  {
    hide InsideEvents, TopEvents, LocalRun, LocalEvents;
    match f
    case Nothing =>
      NoTops(k);
      NoCalls(Local(None, k));
    case Frame(cls, op, inside, later) =>
      var enter, leave := Mark(true, cls, op), Mark(false, cls, op);
      var back := [leave] + Marks(later);
      var idle := Local(None, k);
      var l1 := Local(Some(TraceData(k, 0, 1)), k + 1);
      var l2 := Local(Some(TraceData(k, 2 * Size(inside), 1)), k + 1);
      assert Marks(f) == [enter] + (Marks(inside) + back);
      OneStep(idle, enter, Marks(inside) + back);
      assert LocalStep(idle, enter) == l1;
      assert LocalReported(idle, enter) == [Metadata(k)] + [Operation(true, k, 0, cls, op)];
      InsideRun(inside, l1, back);
      OneStep(l2, leave, Marks(later));
      assert LocalStep(l2, leave) == Local(None, k + 1);
      NestedCallsShape(later, k + 1);
      TopUnfolds(cls, op, inside, later, k);
  }

  // Any calls, nested or not.

  function Balance(ms: seq<Mark>): int
  {
    if ms == [] then 0 else Balance(ms[..|ms| - 1]) + (if ms[|ms| - 1].enter then 1 else -1)
  }

  /** The calls since the open trace began. */
  function Since(ms: seq<Mark>): seq<Mark>
  {
    if ms == [] then []
    else
      var s := Since(ms[..|ms| - 1]) + [ms[|ms| - 1]];
      if !ms[|ms| - 1].enter && Balance(s) == 0 then [] else s
  }

  lemma {:induction false} RunSplits(l: Local, a: seq<Mark>, b: seq<Mark>)
    ensures LocalRun(l, a + b) == LocalRun(LocalRun(l, a), b)
    decreases |a|
  {
    if a == [] {
      assert a + b == b;
    } else {
      assert (a + b)[1..] == a[1..] + b;
      RunSplits(LocalStep(l, a[0]), a[1..], b);
    }
  }

  lemma {:induction false} EventsSplit(l: Local, a: seq<Mark>, b: seq<Mark>)
    ensures LocalEvents(l, a + b) == LocalEvents(l, a) + LocalEvents(LocalRun(l, a), b)
    decreases |a|
  {
    hide LocalStep, LocalReported;
    if a == [] {
      assert a + b == b;
    } else {
      assert (a + b)[1..] == a[1..] + b;
      EventsSplit(LocalStep(l, a[0]), a[1..], b);
    }
  }

  /** For any calls of an idle thread: a trace is open exactly when calls came since the last balanced leave; its stack
      is the entries minus the leaves since then, and its last order index is their number minus one. */
  lemma {:induction false} OpenTraceCounts(ms: seq<Mark>, k: nat)
    ensures var s, l := Since(ms), LocalRun(Local(None, k), ms);
            l.open == if s == [] then None else Some(TraceData(l.count - 1, |s| - 1, Balance(s)))
  {
    hide LocalRun;
    if ms == [] {
      NoCalls(Local(None, k));
    } else {
      var n := |ms| - 1;
      var m, l := ms[n], LocalRun(Local(None, k), ms[..n]);
      OpenTraceCounts(ms[..n], k);
      RunEndsWith(Local(None, k), ms);
      var s := Since(ms[..n]);
      assert Opened(l) == TraceData(if s == [] then l.count else l.count - 1, |s| - 1, Balance(s));
      BalanceEndsWith(s, m);
      assert Since(ms) == if !m.enter && Balance(s + [m]) == 0 then [] else s + [m];
    }
  }

  lemma RunEndsWith(l: Local, ms: seq<Mark>)
    requires ms != []
    ensures var n := |ms| - 1;
            && LocalRun(l, ms) == LocalStep(LocalRun(l, ms[..n]), ms[n])
            && LocalEvents(l, ms) == LocalEvents(l, ms[..n]) + LocalReported(LocalRun(l, ms[..n]), ms[n])
  {
    hide LocalStep, LocalReported;
    var n := |ms| - 1;
    var l' := LocalRun(l, ms[..n]);
    assert ms == ms[..n] + [ms[n]];
    RunSplits(l, ms[..n], [ms[n]]);
    EventsSplit(l, ms[..n], [ms[n]]);
    assert [ms[n]] + [] == [ms[n]];
    OneStep(l', ms[n], []);
    NoCalls(LocalStep(l', ms[n]));
  }

  lemma BalanceEndsWith(s: seq<Mark>, m: Mark)
    ensures Balance(s + [m]) == Balance(s) + (if m.enter then 1 else -1)
  {
    assert (s + [m])[..|s|] == s;
  }

  lemma {:induction false} BalanceSince(ms: seq<Mark>)
    ensures Balance(Since(ms)) == Balance(ms)
  {
    if ms != [] {
      var n := |ms| - 1;
      BalanceSince(ms[..n]);
      BalanceEndsWith(Since(ms[..n]), ms[n]);
    }
  }

  lemma {:induction false} BalanceStartsWith(m: Mark, s: seq<Mark>)
    ensures Balance([m] + s) == (if m.enter then 1 else -1) + Balance(s)
  {
    if s == [] {
      assert [m] + s == [] + [m];
      BalanceEndsWith([], m);
    } else {
      var n := |s| - 1;
      BalanceStartsWith(m, s[..n]);
      BalanceEndsWith([m] + s[..n], s[n]);
      assert [m] + s == [m] + s[..n] + [s[n]];
    }
  }

  /** A thread that never leaves an operation it has not entered is never less than zero operations deep. */
  lemma {:induction false} PrefixNeverUnder(a: seq<Mark>, b: seq<Mark>, depth: nat)
    requires NeverUnder(a + b, depth)
    ensures depth + Balance(a) >= 0
  {
    if a != [] {
      assert a == [a[0]] + a[1..] && (a + b)[1..] == a[1..] + b;
      BalanceStartsWith(a[0], a[1..]);
      PrefixNeverUnder(a[1..], b, if a[0].enter then depth + 1 else depth - 1);
    }
  }

  /** At every point of the calls of a thread that never goes under, it has a trace exactly when it is inside an
      operation: each trace is retired exactly when the depth returns to zero. */
  lemma RetiredExactlyAtDepthZero(ms: seq<Mark>, i: nat)
    requires NeverUnder(ms, 0) && i <= |ms|
    ensures LocalRun(Local(None, 0), ms[..i]).open.None? <==> Balance(ms[..i]) == 0
  {
    hide LocalRun, NeverUnder, Balance;
    var p := ms[..i];
    OpenTraceCounts(p, 0);
    BalanceSince(p);
    if p != [] && Balance(p) == 0 {
      var n := |p| - 1;
      assert ms == p[..n] + ms[n..];
      PrefixNeverUnder(p[..n], ms[n..], 0);
      assert p == p[..n] + [p[n]];
      BalanceEndsWith(p[..n], p[n]);
    } else {
      NothingBalances();
    }
  }

  lemma NothingBalances()
    ensures Balance([]) == 0
  {}

  // Any trace: finished, open, or opened by leaving.

  /** The calls belong to one trace: none of them but the last may retire it. */
  ghost predicate OneTrace(ms: seq<Mark>)
  {
    ms != [] && forall i :: 0 < i < |ms| ==> Since(ms[..i]) != []
  }

  /** The operations of a trace, numbered from 0. */
  function Numbered(ms: seq<Mark>, id: int): (es: seq<Event>)
    ensures |es| == |ms|
  {
    seq(|ms|, i requires 0 <= i < |ms| => Operation(ms[i].enter, id, i, ms[i].cls, ms[i].op))
  }

  /** All events of a trace: metadata first, unless it was opened by leaving. */
  function TraceOf(ms: seq<Mark>, id: int): seq<Event>
  {
    (if ms != [] && ms[0].enter then [Metadata(id)] else []) + Numbered(ms, id)
  }

  lemma {:induction false} SinceAll(ms: seq<Mark>)
    requires forall i :: 0 < i <= |ms| ==> Since(ms[..i]) != []
    ensures Since(ms) == ms
  {
    if ms != [] {
      var n := |ms| - 1;
      forall i | 0 < i <= n
        ensures Since(ms[..n][..i]) != []
      {
        assert ms[..n][..i] == ms[..i];
      }
      SinceAll(ms[..n]);
      assert ms[..|ms|] == ms;
    }
  }

  /** The calls of one trace report exactly its events, whatever the calls are. */
  lemma {:induction false} OneTraceEvents(ms: seq<Mark>, k: nat)
    requires OneTrace(ms)
    ensures LocalEvents(Local(None, k), ms) == TraceOf(ms, k) && LocalRun(Local(None, k), ms).count == k + 1
  {
    hide LocalRun, LocalEvents, Since, Balance;
    var n, idle := |ms| - 1, Local(None, k);
    var m := ms[n];
    RunEndsWith(idle, ms);
    if n == 0 {
      NoCalls(idle);
    } else {
      var a := ms[..n];
      forall i | 0 < i <= n
        ensures Since(a[..i]) != []
      {
        assert a[..i] == ms[..i];
      }
      OneTraceEvents(a, k);
      SinceAll(a);
      OpenTraceCounts(a, k);
      assert LocalReported(LocalRun(idle, a), m) == [Operation(m.enter, k, n, m.cls, m.op)];
      assert Numbered(ms, k) == Numbered(a, k) + [Operation(m.enter, k, n, m.cls, m.op)];
    }
  }

  /** The trace ids a thread's calls report: the open trace's and new ones. */
  lemma {:induction false} LocalIds(l: Local, ms: seq<Mark>)
    requires l.open.Some? ==> l.count > 0 && l.open.value.traceId == l.count - 1
    ensures LocalRun(l, ms).count >= l.count
    ensures forall e <- LocalEvents(l, ms) ::
              (if l.open.Some? then l.count - 1 else l.count) <= e.traceId < LocalRun(l, ms).count
    decreases |ms|
  {
    hide LocalRun, LocalEvents;
    if ms == [] {
      NoCalls(l);
    } else {
      assert ms == [ms[0]] + ms[1..];
      OneStep(l, ms[0], ms[1..]);
      LocalIds(LocalStep(l, ms[0]), ms[1..]);
    }
  }

  // Metadata.

  /** Every operation event follows the metadata of its trace, and no trace has metadata twice; `ids` had theirs. */
  predicate Announced(es: seq<Event>, ids: set<int>)
  {
    es == []
    || (if es[0].Metadata? then es[0].traceId !in ids && Announced(es[1..], ids + {es[0].traceId})
        else es[0].traceId in ids && Announced(es[1..], ids))
  }

  /** Traces get their metadata, exactly once and before their first event, if and only if the thread never leaves an
      operation it has not entered. */
  lemma MetadataExactlyOnce(ms: seq<Mark>)
    ensures Announced(LocalEvents(Local(None, 0), ms), {}) <==> NeverUnder(ms, 0)
  {
    AnnouncedFrom(Local(None, 0), ms, 0, {});
  }

  lemma {:induction false} AnnouncedFrom(l: Local, ms: seq<Mark>, depth: nat, ids: set<int>)
    requires forall id <- ids :: id < l.count
    requires match l.open
             case None => depth == 0
             case Some(t) => t.traceId in ids && t.stack == depth > 0 && t.orderIndex >= 0
    ensures Announced(LocalEvents(l, ms), ids) <==> NeverUnder(ms, depth)
    decreases |ms|
  {
    hide LocalEvents, Announced;
    if ms == [] {
      NoCalls(l);
      NothingAnnounced(ids);
    } else {
      var m := ms[0];
      var rest := LocalEvents(LocalStep(l, m), ms[1..]);
      assert ms == [m] + ms[1..];
      OneStep(l, m, ms[1..]);
      var op := Operation(m.enter, Opened(l).traceId, Opened(l).orderIndex + 1, m.cls, m.op);
      AnnouncedStep(op, rest, ids);
      if l.open.Some? {
        assert LocalReported(l, m) == [op];
        AnnouncedFrom(LocalStep(l, m), ms[1..], if m.enter then depth + 1 else depth - 1, ids);
      } else if m.enter {
        assert LocalReported(l, m) == [Metadata(l.count)] + [op];
        assert [Metadata(l.count)] + [op] + rest == [Metadata(l.count)] + ([op] + rest);
        AnnouncedStep(Metadata(l.count), [op] + rest, ids);
        AnnouncedStep(op, rest, ids + {l.count});
        AnnouncedFrom(LocalStep(l, m), ms[1..], 1, ids + {l.count});
      } else {
        assert LocalReported(l, m) == [op];
      }
    }
  }

  lemma NothingAnnounced(ids: set<int>)
    ensures Announced([], ids)
  {}

  lemma AnnouncedStep(e: Event, rest: seq<Event>, ids: set<int>)
    ensures Announced([e] + rest, ids) <==>
            if e.Metadata? then e.traceId !in ids && Announced(rest, ids + {e.traceId})
            else e.traceId in ids && Announced(rest, ids)
  {
    assert ([e] + rest)[1..] == rest;
  }

  /** The shortest such run: a thread whose first probe call is a leave reports an event of a trace without metadata,
      and the trace stays open, so that the calls that follow go unannounced too. */
  lemma LeavingFirstGoesUnannounced(cls: CString, op: CString)
    ensures var idle, leave, enter := Local(None, 0), Mark(false, cls, op), Mark(true, cls, op);
            && LocalEvents(idle, [leave, enter]) == [Operation(false, 0, 0, cls, op), Operation(true, 0, 1, cls, op)]
            && LocalRun(idle, [leave, enter]).open == Some(TraceData(0, 1, 0))
  {
    var idle, leave, enter := Local(None, 0), Mark(false, cls, op), Mark(true, cls, op);
    var l := LocalStep(idle, leave);
    assert [leave] + [enter] == [leave, enter] && [enter] + [] == [enter];
    OneStep(idle, leave, [enter]);
    OneStep(l, enter, []);
    NoCalls(LocalStep(l, enter));
  }
}
