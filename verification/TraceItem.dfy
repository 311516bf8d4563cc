/** The items of the trace registry: kieker_trace_t with its embedded hash handle. */
module TraceItem {
  import opened Words

  /** A trace of one thread.  The application-order links of the handle point to items, the chain links to handles;
      here both are references to the item. */
  class Trace {
    var traceId: int
    var orderIndex: int
    var stack: int
    var threadId: int

    // The hash handle.
    var prev: Trace?
    var next: Trace?
    var hhPrev: Trace?
    var hhNext: Trace?
    var key: seq<Byte>
    var hashv: Word

    /** kieker_trace_create. */
    constructor (threadId: int, traceId: int)
      ensures this.traceId == traceId && this.threadId == threadId
      ensures orderIndex == -1 && stack == 0
    {
      this.traceId, this.threadId := traceId, threadId;
      orderIndex, stack := -1, 0;
      prev, next, hhPrev, hhNext := null, null, null, null;
      key, hashv := [], 0;
    }
  }

  /** The fields of an item that the user of the table set, and its key and hash value: what a comparator can read.  The
      links of an item are the table's own. */
  datatype Item = Item(traceId: int, orderIndex: int, stack: int, threadId: int, key: seq<Byte>, hashv: Word)

  function ItemOf(t: Trace): Item
    reads t`traceId, t`orderIndex, t`stack, t`threadId, t`key, t`hashv
  {
    Item(t.traceId, t.orderIndex, t.stack, t.threadId, t.key, t.hashv)
  }
}
