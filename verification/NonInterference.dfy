/** Interleaved threads: each behaves as if it were alone, up to the choice of trace ids. */
module NonInterference {
  import opened Bytes
  import opened Wire
  import opened Probes
  import opened ThreadView
  import opened CallTree
  import opened ThreadRun

  function RegistryRun(r: Registry, cs: seq<Call>): Registry
    decreases |cs|
  {
    if cs == [] then r else RegistryRun(After(r, cs[0]), cs[1..])
  }

  /** The events of one thread in an interleaved run. */
  function ThreadEvents(r: Registry, cs: seq<Call>, thread: int): seq<Event>
    decreases |cs|
  {
    if cs == [] then []
    else (if cs[0].thread == thread then Reported(r, cs[0]) else []) + ThreadEvents(After(r, cs[0]), cs[1..], thread)
  }

  /** The threads that are given a trace id in a run, in the order of the ids. */
  function Takers(r: Registry, cs: seq<Call>): seq<int>
    decreases |cs|
  {
    if cs == [] then []
    else (if cs[0].thread in r.traces then [] else [cs[0].thread]) + Takers(After(r, cs[0]), cs[1..])
  }

  /** The trace ids a thread is given, when ids are handed out from `from` on. */
  function IdsOf(takers: seq<int>, from: int, thread: int): seq<int>
  {
    if takers == [] then []
    else (if takers[0] == thread then [from] else []) + IdsOf(takers[1..], from + 1, thread)
  }

  lemma {:induction false} RegistryRunSplits(r: Registry, a: seq<Call>, b: seq<Call>)
    ensures RegistryRun(r, a + b) == RegistryRun(RegistryRun(r, a), b)
    ensures Takers(r, a + b) == Takers(r, a) + Takers(RegistryRun(r, a), b)
    decreases |a|
  {
    hide After;
    if a == [] {
      assert a + b == b;
    } else {
      assert (a + b)[1..] == a[1..] + b;
      RegistryRunSplits(After(r, a[0]), a[1..], b);
    }
  }

  lemma {:induction false} CounterCounts(r: Registry, cs: seq<Call>)
    ensures RegistryRun(r, cs).nextId == r.nextId + |Takers(r, cs)|
    decreases |cs|
  {
    if cs != [] {
      CounterCounts(After(r, cs[0]), cs[1..]);
    }
  }

  /** The ids a run hands out are consecutive from the counter's value: the call that makes the n-th new trace of the
      run gets the n-th id, and any other call keeps the id its thread has. */
  lemma IdsAreConsecutive(r: Registry, cs: seq<Call>, i: nat)
    requires i < |cs|
    ensures var q, n, thread := RegistryRun(r, cs[..i]), |Takers(r, cs[..i])|, cs[i].thread;
            if thread in q.traces
            then Takers(r, cs[..i + 1]) == Takers(r, cs[..i]) && Got(q, thread).traceId == q.traces[thread].traceId
            else Takers(r, cs[..i + 1]) == Takers(r, cs[..i]) + [thread] && Got(q, thread).traceId == r.nextId + n
  {
    hide After;
    var q := RegistryRun(r, cs[..i]);
    CounterCounts(r, cs[..i]);
    assert cs[..i + 1] == cs[..i] + [cs[i]];
    RegistryRunSplits(r, cs[..i], [cs[i]]);
    assert [cs[i]][1..] == [];
    assert Takers(After(q, cs[i]), []) == [];
  }

  ghost predicate Increasing(ids: seq<int>)
  {
    forall i, j :: 0 <= i < j < |ids| ==> ids[i] < ids[j]
  }

  /** Ids of one thread increase; no id belongs to two threads. */
  lemma {:induction false} IdsAreDistinct(takers: seq<int>, from: int, thread: int, other: int)
    ensures Increasing(IdsOf(takers, from, thread))
    ensures forall id <- IdsOf(takers, from, thread) :: from <= id < from + |takers|
    ensures thread != other ==> forall id <- IdsOf(takers, from, thread) :: id !in IdsOf(takers, from, other)
    decreases |takers|
  {
    if takers != [] {
      IdsAreDistinct(takers[1..], from + 1, thread, other);
      IdsAreDistinct(takers[1..], from + 1, other, thread);
      var rest := IdsOf(takers[1..], from + 1, thread);
      assert forall k :: 0 <= k < |rest| ==> rest[k] in rest;
      var here, there := IdsOf(takers, from, thread), IdsOf(takers, from, other);
      assert here == (if takers[0] == thread then [from] else []) + rest;
      assert there == (if takers[0] == other then [from] else []) + IdsOf(takers[1..], from + 1, other);
    }
  }

  function RenameEvent(e: Event, ids: seq<int>): Event
  {
    if 0 <= e.traceId < |ids| then e.(traceId := ids[e.traceId]) else e
  }

  function Rename(es: seq<Event>, ids: seq<int>): seq<Event>
  {
    seq(|es|, i requires 0 <= i < |es| => RenameEvent(es[i], ids))
  }

  /** The thread's entry in the registry is its local open trace under its real id. */
  ghost predicate Mirrors(r: Registry, thread: int, l: Local, ids: seq<int>)
  {
    && |ids| == l.count
    && (thread in r.traces <==> l.open.Some?)
    && (l.open.Some? ==>
          l.count > 0 && l.open.value.traceId == l.count - 1
          && r.traces[thread] == l.open.value.(traceId := ids[l.count - 1]))
  }

  lemma MirrorStep(r: Registry, c: Call, l: Local, ids: seq<int>)
    requires Mirrors(r, c.thread, l, ids)
    ensures var m := Mark(c.enter, c.cls, c.op);
            var ids' := if c.thread in r.traces then ids else ids + [r.nextId];
            && Mirrors(After(r, c), c.thread, LocalStep(l, m), ids')
            && forall more: seq<int> :: Reported(r, c) == Rename(LocalReported(l, m), ids' + more)
  {
  }

  lemma MirrorOther(r: Registry, c: Call, thread: int, l: Local, ids: seq<int>)
    requires Mirrors(r, thread, l, ids) && c.thread != thread
    ensures Mirrors(After(r, c), thread, l, ids)
  {}

  lemma RenameAppend(a: seq<Event>, b: seq<Event>, ids: seq<int>)
    ensures Rename(a + b, ids) == Rename(a, ids) + Rename(b, ids)
  {}

  lemma {:induction false} ThreadIsAlone(r: Registry, cs: seq<Call>, thread: int, l: Local, ids: seq<int>)
    requires Mirrors(r, thread, l, ids)
    ensures ThreadEvents(r, cs, thread) ==
            Rename(LocalEvents(l, CallsOf(cs, thread)), ids + IdsOf(Takers(r, cs), r.nextId, thread))
    decreases |cs|
  {
    hide Mirrors, Rename, LocalReported, Reported, After, LocalStep, LocalEvents, CallsOf, Takers, IdsOf, ThreadEvents;
    if cs == [] {
      NothingRenamed(r, thread, l, ids);
    } else {
      var c, r' := cs[0], After(r, cs[0]);
      var given := c.thread !in r.traces;
      AfterNextId(r, c);
      var all := ids + IdsOf(Takers(r, cs), r.nextId, thread);
      FirstCall(cs, thread);
      TakersUnfold(r, cs, thread);
      EventsUnfold(r, cs, thread);
      if c.thread == thread {
        var m := Mark(c.enter, c.cls, c.op);
        var ids' := if given then ids + [r.nextId] else ids;
        MirrorStep(r, c, l, ids);
        var more := IdsOf(Takers(r', cs[1..]), r'.nextId, thread);
        assert ids' + more == all;
        ThreadIsAlone(r', cs[1..], thread, LocalStep(l, m), ids');
        RenameAppend(LocalReported(l, m), LocalEvents(LocalStep(l, m), CallsOf(cs[1..], thread)), all);
        OneStep(l, m, CallsOf(cs[1..], thread));
      } else {
        MirrorOther(r, c, thread, l, ids);
        ThreadIsAlone(r', cs[1..], thread, l, ids);
      }
    }
  }

  lemma NothingRenamed(r: Registry, thread: int, l: Local, ids: seq<int>)
    ensures forall all :: Rename([], all) == []
    ensures ThreadEvents(r, [], thread) == [] && CallsOf([], thread) == [] && LocalEvents(l, []) == []
  {}

  lemma EventsUnfold(r: Registry, cs: seq<Call>, thread: int)
    requires cs != []
    ensures ThreadEvents(r, cs, thread) ==
            if cs[0].thread == thread then Reported(r, cs[0]) + ThreadEvents(After(r, cs[0]), cs[1..], thread)
            else ThreadEvents(After(r, cs[0]), cs[1..], thread)
  {}

  lemma AfterNextId(r: Registry, c: Call)
    ensures After(r, c).nextId == if c.thread in r.traces then r.nextId else r.nextId + 1
  {}

  lemma TakersUnfold(r: Registry, cs: seq<Call>, thread: int)
    requires cs != []
    ensures var r' := After(r, cs[0]);
            var rest := IdsOf(Takers(r', cs[1..]), r'.nextId, thread);
            IdsOf(Takers(r, cs), r.nextId, thread) ==
            if cs[0].thread !in r.traces && cs[0].thread == thread then [r.nextId] + rest else rest
  {
    var t := Takers(After(r, cs[0]), cs[1..]);
    if cs[0].thread !in r.traces {
      assert ([cs[0].thread] + t)[1..] == t;
    } else {
      assert [] + t == t;
    }
  }

  /** Non-interference: in any interleaving of probe calls, the events of a thread are those it would report alone,
      under trace ids that increase and that no other thread is given. */
  lemma ThreadsDoNotInterfere(val: int, cs: seq<Call>, thread: int)
    ensures var r := Start(val).registry;
            var ids := IdsOf(Takers(r, cs), r.nextId, thread);
            && ThreadEvents(r, cs, thread) == Rename(LocalEvents(Local(None, 0), CallsOf(cs, thread)), ids)
            && Increasing(ids)
            && forall other, id :: other != thread && id in ids ==> id !in IdsOf(Takers(r, cs), r.nextId, other)
  {
    var r := Start(val).registry;
    var takers := Takers(r, cs);
    ThreadIsAlone(r, cs, thread, Local(None, 0), []);
    assert [] + IdsOf(takers, r.nextId, thread) == IdsOf(takers, r.nextId, thread);
    forall other, id | other != thread && id in IdsOf(takers, r.nextId, thread)
      ensures id !in IdsOf(takers, r.nextId, other)
    {
      IdsAreDistinct(takers, r.nextId, thread, other);
    }
    IdsAreDistinct(takers, r.nextId, thread, thread);
  }

  /** What an interleaved thread reports before, during and after some of its calls that start when it is idle. */
  lemma ThreadSplits(val: int, cs: seq<Call>, thread: int, before: seq<Mark>, during: seq<Mark>, tail: seq<Mark>)
    requires CallsOf(cs, thread) == before + (during + tail) && Since(before) == []
    ensures var r, k := Start(val).registry, Started(before);
            var ids, l := IdsOf(Takers(r, cs), r.nextId, thread), LocalRun(Local(None, k), during);
            && |ids| == LocalRun(l, tail).count
            && ThreadEvents(r, cs, thread) ==
               Rename(LocalEvents(Local(None, 0), before) + LocalEvents(Local(None, k), during)
                      + LocalEvents(l, tail), ids)
            && (thread in RegistryRun(r, cs).traces <==> LocalRun(l, tail).open.Some?)
  {
    hide LocalEvents, LocalRun, ThreadEvents, Takers, IdsOf, Rename, CallsOf, Since;
    var idle := Local(None, 0);
    ThreadsDoNotInterfere(val, cs, thread);
    EndsMirrored(Start(val).registry, cs, thread, idle, []);
    OpenTraceCounts(before, 0);
    EventsSplit(idle, before, during + tail);
    RunSplits(idle, before, during + tail);
    EventsSplit(LocalRun(idle, before), during, tail);
    RunSplits(LocalRun(idle, before), during, tail);
    Associate(LocalEvents(idle, before), LocalEvents(LocalRun(idle, before), during),
              LocalEvents(LocalRun(LocalRun(idle, before), during), tail));
  }

  lemma Associate<T>(a: seq<T>, b: seq<T>, c: seq<T>)
    ensures a + (b + c) == a + b + c
  {}

  /** The number of traces a thread starts by its calls. */
  function Started(ms: seq<Mark>): nat { LocalRun(Local(None, 0), ms).count }

  /** The shape of properly nested calls survives any interleaving, whatever the thread did before and does after them:
      the thread reports the traces of their call forest, renamed. */
  lemma NestedThreadShape(val: int, cs: seq<Call>, thread: int, before: seq<Mark>, f: Forest, tail: seq<Mark>)
    requires CallsOf(cs, thread) == before + (Marks(f) + tail) && Since(before) == []
    ensures var r, k := Start(val).registry, Started(before);
            var ids := IdsOf(Takers(r, cs), r.nextId, thread);
            && k + Roots(f) <= |ids|
            && ThreadEvents(r, cs, thread) ==
               Rename(LocalEvents(Local(None, 0), before) + TopEvents(f, k)
                      + LocalEvents(Local(None, k + Roots(f)), tail), ids)
            && (tail == [] ==> thread !in RegistryRun(r, cs).traces)
  {
    hide LocalEvents, LocalRun, TopEvents, Marks, ThreadEvents, Takers, IdsOf, Rename, CallsOf, Since;
    var k := Started(before);
    ThreadSplits(val, cs, thread, before, Marks(f), tail);
    NestedCallsShape(f, k);
    LocalIds(Local(None, k + Roots(f)), tail);
    NoCalls(Local(None, k + Roots(f)));
  }

  lemma {:induction false} EndsMirrored(r: Registry, cs: seq<Call>, thread: int, l: Local, ids: seq<int>)
    requires Mirrors(r, thread, l, ids)
    ensures thread in RegistryRun(r, cs).traces <==> LocalRun(l, CallsOf(cs, thread)).open.Some?
    ensures |ids| + |IdsOf(Takers(r, cs), r.nextId, thread)| == LocalRun(l, CallsOf(cs, thread)).count
    decreases |cs|
  {
    hide LocalReported, Reported, After, LocalStep, Takers, IdsOf;
    if cs == [] {
      NoTakers(r, thread);
    } else {
      var c := cs[0];
      FirstCall(cs, thread);
      TakersUnfold(r, cs, thread);
      AfterNextId(r, c);
      if c.thread == thread {
        var m := Mark(c.enter, c.cls, c.op);
        MirrorStep(r, c, l, ids);
        OneStep(l, m, CallsOf(cs[1..], thread));
        var ids' := if thread in r.traces then ids else ids + [r.nextId];
        EndsMirrored(After(r, c), cs[1..], thread, LocalStep(l, m), ids');
      } else {
        MirrorOther(r, c, thread, l, ids);
        EndsMirrored(After(r, c), cs[1..], thread, l, ids);
      }
    }
  }

  lemma NoTakers(r: Registry, thread: int)
    ensures IdsOf(Takers(r, []), r.nextId, thread) == []
  {}

  /** In any interleaving, a thread that never goes under has a trace in the registry exactly when it is inside an
      operation. */
  lemma HasTraceExactlyInside(val: int, cs: seq<Call>, thread: int)
    requires NeverUnder(CallsOf(cs, thread), 0)
    ensures Balance(CallsOf(cs, thread)) >= 0
    ensures thread in RegistryRun(Start(val).registry, cs).traces <==> Balance(CallsOf(cs, thread)) > 0
  {
    hide LocalRun, Balance, CallsOf, NeverUnder;
    var ms := CallsOf(cs, thread);
    EndsMirrored(Start(val).registry, cs, thread, Local(None, 0), []);
    RetiredExactlyAtDepthZero(ms, |ms|);
    assert ms[..|ms|] == ms && ms + [] == ms;
    PrefixNeverUnder(ms, [], 0);
  }

  /** Trace ids start at a multiple of 256 below 256 * 10^9, and a run has to be longer than 2^62 calls before they
      could leave the range of their field. */
  lemma SeedFits(rand: nat, cs: seq<Call>)
    requires forall c <- cs :: InRange(c.thread, 4)
    requires |cs| <= 0x4000_0000_0000_0000
    ensures var val := rand % 1_000_000_000;
            && Start(val).registry.nextId % 256 == 0 && 0 <= Start(val).registry.nextId < 256_000_000_000
            && IdsFit(val, cs)
  {
    Base4();
  }
}
