/** The per-thread trace registry: kieker_trace over the hash table. */
module TraceRegistry {
  import opened Words
  import opened Bytes
  import opened TraceItem
  import opened Chains
  import opened UtHash
  import opened Jenkins
  import opened Probes

  /** The bytes of a thread id in memory: the key HASH_FIND_INT and HASH_ADD_INT use. */
  function KeyOf(thread: int): seq<Byte>
  {
    LittleBytes(Wrapped(thread, 4), 4)
  }

  lemma {:induction false} LittleBytesInjective(n: nat, m: nat, w: nat)
    requires n < Base(w) && m < Base(w) && LittleBytes(n, w) == LittleBytes(m, w)
    ensures n == m
  {
    if w > 0 {
      var s, t := LittleBytes(n, w), LittleBytes(m, w);
      assert s[0] == t[0] && s[1..] == t[1..];
      assert s[1..] == LittleBytes(n / 0x100, w - 1) && t[1..] == LittleBytes(m / 0x100, w - 1);
      LittleBytesInjective(n / 0x100, m / 0x100, w - 1);
    }
  }

  lemma KeyIsInjective(t: int, u: int)
    requires InRange(t, 4) && InRange(u, 4)
    ensures KeyOf(t) == KeyOf(u) ==> t == u
  {
    if KeyOf(t) == KeyOf(u) {
      LittleBytesInjective(Wrapped(t, 4), Wrapped(u, 4), 4);
      WireViewExact(t, 4);
      WireViewExact(u, 4);
    }
  }

  function DataOf(t: Trace): TraceData
    reads t`traceId, t`orderIndex, t`stack
  {
    TraceData(t.traceId, t.orderIndex, t.stack)
  }

  /** The registry after kieker_trace_get. */
  function AfterGet(r: Registry, thread: int): Registry
  {
    Registry(r.traces[thread := Got(r, thread)], if thread in r.traces then r.nextId else r.nextId + 1)
  }

  /** `m` lists the traces of `s` by thread, and their keys are their thread ids. */
  ghost predicate ByThread(m: map<int, Trace>, s: set<Trace>)
    reads s`key, s`threadId
  {
    && (forall th <- m :: m[th] in s && m[th].threadId == th)
    && (forall t <- s :: InRange(t.threadId, 4) && t.threadId in m && m[t.threadId] == t && t.key == KeyOf(t.threadId))
  }

  lemma ByThreadAdd(m: map<int, Trace>, s: set<Trace>, t: Trace)
    requires ByThread(m, s) && t !in s && t.threadId !in m && t.key == KeyOf(t.threadId) && InRange(t.threadId, 4)
    ensures ByThread(m[t.threadId := t], s + {t})
  {
    hide KeyOf;
  }

  lemma ByThreadRemove(m: map<int, Trace>, s: set<Trace>, t: Trace)
    requires ByThread(m, s) && t in s
    ensures ByThread(m - {t.threadId}, s - {t}) && t.threadId in m && m[t.threadId] == t
  {
    hide KeyOf;
  }

  /** The data of the traces by thread. */
  ghost function DataMap(m: map<int, Trace>): (d: map<int, TraceData>)
    reads m.Values`traceId, m.Values`orderIndex, m.Values`stack
    ensures d.Keys == m.Keys
  {
    map th <- m :: DataOf(m[th])
  }

  lemma DataMapAdd(m: map<int, Trace>, thread: int, t: Trace)
    ensures DataMap(m[thread := t]) == DataMap(m)[thread := DataOf(t)]
  {
    assert forall th <- m :: m[th] in m.Values;
  }

  lemma DataMapRemove(m: map<int, Trace>, thread: int)
    ensures DataMap(m - {thread}) == DataMap(m) - {thread}
  {}

  /** The globals of kieker_trace.c: the hash map of traces and the id counter. */
  class Traces {
    const table: Hash
    var currentId: int
    ghost var threads: map<int, Trace>

    ghost predicate Valid()
      reads this, table, table.buckets, table.order`next, table.order`prev
      reads table.items`key, table.items`hashv, table.items`hhNext, table.items`hhPrev, table.items`threadId
    {
      table.Valid() && ByThread(threads, table.items)
    }

    /** The registry as the probes see it. */
    ghost function View(): Registry
      reads `threads, `currentId, threads.Values`traceId, threads.Values`orderIndex, threads.Values`stack
    {
      Registry(DataMap(threads), currentId)
    }

    /** kieker_trace_init. */
    constructor (rand: nat)
      ensures Valid() && View() == Registry(map[], (rand % 1_000_000_000) * 256)
      ensures fresh(table) && fresh(table.buckets) && table.items == {} && threads == map[]
      ensures table.hashFcn == HashValue
    {
      table := new Hash(HashValue);
      currentId := (rand % 1_000_000_000) * 256;
      threads := map[];
    }

    /** kieker_trace_find. */
    method Find(thread: int) returns (data: Trace?)
      requires Valid() && InRange(thread, 4)
      ensures data == if thread in threads then threads[thread] else null
    {
      hide Hash.Linked, Hash.Bucketed, Hash.Policy, KeyOf;
      data := table.Find(KeyOf(thread));
      FoundByKey(thread);
    }

    lemma FoundByKey(thread: int)
      requires Valid() && InRange(thread, 4)
      ensures KeyOf(thread) in table.contents <==> thread in threads
      ensures thread in threads ==> table.contents[KeyOf(thread)] == threads[thread]
    {
      hide KeyOf, Hash.Linked, Hash.Bucketed, Hash.Policy;
      if KeyOf(thread) in table.contents {
        KeyIsInjective(table.contents[KeyOf(thread)].threadId, thread);
      }
    }

    /** kieker_trace_get_next_id. */
    method GetNextId() returns (id: int)
      modifies `currentId
      ensures id == old(currentId) && currentId == old(currentId) + 1
    {
      id := currentId;
      currentId := currentId + 1;
    }

    /** kieker_trace_get, run without interruption. */
    method Get(thread: int) returns (data: Trace)
      requires Valid() && InRange(thread, 4)
      modifies `currentId, `threads, table, table.buckets
      modifies table.items`next, table.items`hhNext, table.items`hhPrev
      ensures Valid() && View() == AfterGet(old(View()), thread)
      ensures data in table.items && data.threadId == thread && threads == old(threads)[thread := data]
      ensures data in old(table.items) || fresh(data)
      ensures DataOf(data) == Got(old(View()), thread)
      ensures table.items == old(table.items) + {data}
      ensures table.buckets == old(table.buckets) || fresh(table.buckets)
    {
      hide Hash.Valid, ByThread, DataMap;
      var found := Find(thread);
      if found == null {
        data := Enter(thread);
      } else {
        data := found;
        SameView(thread);
      }
    }

    lemma SameView(thread: int)
      requires Valid() && thread in threads
      ensures View() == AfterGet(View(), thread) && DataOf(threads[thread]) == Got(View(), thread)
      ensures threads[thread] in table.items && threads[thread].threadId == thread
      ensures threads == threads[thread := threads[thread]] && table.items == table.items + {threads[thread]}
    {
      hide Hash.Valid;
      var r := View();
      assert r.traces == r.traces[thread := r.traces[thread]];
    }

    /** The write section of kieker_trace_get: HASH_ADD_INT. */
    method Insert(data: Trace)
      requires Valid() && InRange(data.threadId, 4) && data.threadId !in threads && data !in table.items
      modifies `threads, table, table.buckets, table.items`next, table.items`hhNext, table.items`hhPrev
      modifies data`next, data`prev, data`hhNext, data`hhPrev, data`key, data`hashv
      ensures Valid() && threads == old(threads)[data.threadId := data] && table.items == old(table.items) + {data}
      ensures View() == Registry(old(View()).traces[data.threadId := DataOf(data)], old(View()).nextId)
      ensures table.buckets == old(table.buckets) || fresh(table.buckets)
    {
      hide Hash.Valid, KeyOf, ByThread, DataMap;
      FoundByKey(data.threadId);
      table.Add(data, KeyOf(data.threadId));
      ByThreadAdd(threads, old(table.items), data);
      DataMapAdd(threads, data.threadId, data);
      threads := threads[data.threadId := data];
    }

    /** The second half of kieker_trace_get: creates a trace for a thread that has none and enters it. */
    method Enter(thread: int) returns (data: Trace)
      requires Valid() && InRange(thread, 4) && thread !in threads
      modifies `currentId, `threads, table, table.buckets
      modifies table.items`next, table.items`hhNext, table.items`hhPrev
      ensures Valid() && View() == AfterGet(old(View()), thread)
      ensures data in table.items && data.threadId == thread && threads == old(threads)[thread := data]
      ensures fresh(data) && table.items == old(table.items) + {data}
      ensures DataOf(data) == Got(old(View()), thread)
      ensures table.buckets == old(table.buckets) || fresh(table.buckets)
    {
      hide Hash.Valid, ByThread, DataMap;
      var id := GetNextId();
      data := new Trace(thread, id);
      Insert(data);
    }

    /** `trace->order_index++` and `trace->stack++` or `trace->stack--`, as the probes do on a trace at hand. */
    method Count(data: Trace, enter: bool)
      requires Valid() && data in table.items
      modifies data`orderIndex, data`stack
      ensures Valid() && data.threadId in old(View()).traces
      ensures View() == Registry(old(View()).traces[data.threadId := Counted(old(View()).traces[data.threadId], enter)],
                                 old(View()).nextId)
      ensures DataOf(data) == Counted(old(DataOf(data)), enter)
    {
      hide Hash.Valid, KeyOf;
      assert forall th <- threads :: th != data.threadId ==> threads[th] != data;
      data.orderIndex := data.orderIndex + 1;
      data.stack := if enter then data.stack + 1 else data.stack - 1;
    }

    /** kieker_trace_remove. */
    method Remove(data: Trace)
      requires Valid() && data in table.items
      modifies `threads, table, table.buckets
      modifies table.items`next, table.items`prev, table.items`hhNext, table.items`hhPrev
      ensures Valid() && threads == old(threads) - {data.threadId}
      ensures View() == Registry(old(View()).traces - {data.threadId}, old(View()).nextId)
      ensures table.items == old(table.items) - {data}
      ensures table.buckets == old(table.buckets)
    {
      hide Hash.Valid, KeyOf, Without, ByThread, DataMap;
      ByThreadRemove(threads, table.items, data);
      table.Delete(data);
      DataMapRemove(threads, data.threadId);
      threads := threads - {data.threadId};
    }

    /** The start of kieker_probe_after_operation_event: the thread's trace, counted down. */
    method GetToLeave(thread: int) returns (data: Trace)
      requires Valid() && InRange(thread, 4)
      modifies `currentId, `threads, table, table.buckets
      modifies table.items`next, table.items`hhNext, table.items`hhPrev, table.items`orderIndex, table.items`stack
      ensures Valid() && data in table.items && data.threadId == thread
      ensures var g := AfterGet(old(View()), thread);
              View() == Registry(g.traces[thread := Counted(g.traces[thread], false)], g.nextId)
      ensures data in old(table.items) || fresh(data)
      ensures DataOf(data) == Counted(Got(old(View()), thread), false)
      ensures table.items == old(table.items) + {data}
      ensures table.buckets == old(table.buckets) || fresh(table.buckets)
    {
      hide Hash.Valid, ByThread, DataMap;
      data := Get(thread);
      Count(data, false);
    }

    /** The end of kieker_probe_after_operation_event: removes a trace whose calls have all returned. */
    method Retire(data: Trace)
      requires Valid() && data in table.items
      modifies `threads, table, table.buckets
      modifies table.items`next, table.items`prev, table.items`hhNext, table.items`hhPrev
      ensures Valid()
      ensures var r := old(View());
              View() == Registry(if data.stack == 0 then r.traces - {data.threadId} else r.traces, r.nextId)
      ensures table.items <= old(table.items) && table.buckets == old(table.buckets)
    {
      hide Hash.Valid, ByThread, DataMap;
      if data.stack == 0 {
        Remove(data);
      }
    }
  }
}
