/** HASH_FSCK: the traversals that check the table, run on a valid one. */
module UtHashFsck {
  import opened TraceItem
  import opened Chains
  import opened UtHash

  // What the traversals rely on: chains and order that end, link by link.

  ghost predicate NextChain(c: seq<Trace>)
    reads c`hhNext
  {
    forall i {:trigger c[i].hhNext} :: 0 <= i < |c| ==> c[i].hhNext == At(c, i + 1)
  }

  ghost predicate NextOrder(s: seq<Trace>)
    reads s`next
  {
    forall i {:trigger s[i].next} :: 0 <= i < |s| ==> s[i].next == At(s, i + 1)
  }

  ghost predicate Walkable(h: Hash)
    reads h, h.buckets, h.items`next, h.items`hhNext
  {
    h.head != null ==>
      && (forall b, k :: 0 <= b < |h.chains| && 0 <= k < |h.chains[b]| ==> h.chains[b][k] in h.items)
      && (forall k :: 0 <= k < |h.order| ==> h.order[k] in h.items)
      && h.numBuckets == |h.chains| <= h.buckets.Length
      && (forall b :: 0 <= b < |h.chains| ==> h.buckets[b].head == At(h.chains[b], 0) && NextChain(h.chains[b]))
      && h.head == At(h.order, 0) && NextOrder(h.order)
  }

  // What the traversals check.

  ghost predicate PrevChain(c: seq<Trace>)
    reads c`hhPrev
  {
    forall i {:trigger c[i].hhPrev} :: 0 <= i < |c| ==> c[i].hhPrev == At(c, i - 1)
  }

  ghost predicate PrevOrder(s: seq<Trace>)
    reads s`prev
  {
    forall i {:trigger s[i].prev} :: 0 <= i < |s| ==> s[i].prev == At(s, i - 1)
  }

  /** The buckets below `n` are in order. */
  ghost predicate BucketsSound(h: Hash, n: nat)
    requires Walkable(h) && h.head != null && n <= |h.chains|
    reads h, h.buckets, h.items`next, h.items`hhNext, h.items`hhPrev
  {
    forall b :: 0 <= b < n ==> PrevChain(h.chains[b]) && h.buckets[b].count == |h.chains[b]|
  }

  ghost predicate Sound(h: Hash)
    requires Walkable(h)
    reads h, h.buckets, h.items`next, h.items`prev, h.items`hhNext, h.items`hhPrev
  {
    h.head != null ==>
      && BucketsSound(h, |h.chains|) && SumLen(h.chains) == h.numItems
      && PrevOrder(h.order) && |h.order| == h.numItems
  }

  /** The check accepts a table exactly when every mirror link is in place and every counter is right. */
  method Fsck(h: Hash) returns (ok: bool)
    requires Walkable(h)
    ensures ok <==> Sound(h)
  {
    hide NextChain, PrevChain, NextOrder, PrevOrder;
    ok := true;
    if h.head != null {
      var b, hhCount := 0, 0;
      SumStarts(h.chains);
      while b < h.numBuckets
        invariant b <= h.numBuckets && hhCount == SumLen(h.chains[..b]) && (ok <==> BucketsSound(h, b))
      {
        var good, count := WalkBucket(h.buckets[b].head, h.chains[b]);
        ok := ok && good && count == h.buckets[b].count;
        hhCount := hhCount + count;
        SumSteps(h.chains, b);
        b := b + 1;
      }
      assert h.chains[..b] == h.chains;
      ok := ok && hhCount == h.numItems;
      var good, appCount := WalkList(h.head, h.order);
      ok := ok && good && appCount == h.numItems;
    }
  }

  /** Walks a chain, comparing each `hh_prev` with the item before. */
  method WalkBucket(first: Trace?, ghost c: seq<Trace>) returns (ok: bool, count: nat)
    requires NextChain(c) && first == At(c, 0)
    ensures count == |c| && (ok <==> PrevChain(c))
  {
    var thh, prev: Trace? := first, null;
    ok, count := true, 0;
    while thh != null
      invariant count <= |c| && thh == At(c, count) && prev == At(c, count - 1)
      invariant ok <==> forall i {:trigger c[i].hhPrev} :: 0 <= i < count ==> c[i].hhPrev == At(c, i - 1)
      decreases |c| - count
    {
      ok := ok && prev == thh.hhPrev;
      count := count + 1;
      prev := thh;
      thh := thh.hhNext;
    }
  }

  /** Walks the application order, comparing each `prev` with the item before. */
  method WalkList(first: Trace?, ghost s: seq<Trace>) returns (ok: bool, count: nat)
    requires NextOrder(s) && first == At(s, 0)
    ensures count == |s| && (ok <==> PrevOrder(s))
  {
    var thh, prev: Trace? := first, null;
    ok, count := true, 0;
    while thh != null
      invariant count <= |s| && thh == At(s, count) && prev == At(s, count - 1)
      invariant ok <==> forall i {:trigger s[i].prev} :: 0 <= i < count ==> s[i].prev == At(s, i - 1)
      decreases |s| - count
    {
      ok := ok && prev == thh.prev;
      count := count + 1;
      prev := thh;
      thh := thh.next;
    }
  }

  /** The check can be run on a table that satisfies the invariant, and passes. */
  lemma ValidIsSound(h: Hash)
    requires h.Valid()
    ensures Walkable(h) && Sound(h)
  {
    hide Hash.Linked, Placed, AppLinks, ChainsLinked, Hash.Policy, Hash.Keyed;
    if h.head != null {
      ItemsListed(h);
      forall b | 0 <= b < |h.chains|
        ensures h.buckets[b].head == At(h.chains[b], 0) && h.buckets[b].count == |h.chains[b]|
        ensures NextChain(h.chains[b]) && PrevChain(h.chains[b])
      {
        ChainAt(h, b);
      }
      CountTable(h);
      assert h.buckets.Length == |h.chains|;
    }
  }

  lemma ItemsListed(h: Hash)
    requires h.Listed() && h.Bucketed(h.items)
    ensures forall b, k :: 0 <= b < |h.chains| && 0 <= k < |h.chains[b]| ==> h.chains[b][k] in h.items
    ensures forall k :: 0 <= k < |h.order| ==> h.order[k] in h.items
  {}

  lemma ChainAt(h: Hash, b: nat)
    requires h.Bucketed(h.items) && b < h.numBuckets
    ensures b < |h.chains| && b < h.buckets.Length && NextChain(h.chains[b]) && PrevChain(h.chains[b])
    ensures h.buckets[b].head == At(h.chains[b], 0) && h.buckets[b].count == |h.chains[b]|
  {
    assert ChainLinks(h.chains[b]);
  }

  lemma CountTable(h: Hash)
    requires h.Listed() && h.Bucketed(h.items)
    ensures h.numBuckets == |h.chains| && SumLen(h.chains) == h.numItems == |h.order|
    ensures NextOrder(h.order) && PrevOrder(h.order) && h.head == At(h.order, 0)
  {
    CountElements(h.order);
    ChainLengthsAddUp(h.items, h.chains);
  }

  lemma SumStarts(cs: seq<seq<Trace>>)
    ensures SumLen(cs[..0]) == 0
  {}

  lemma {:induction false} SumSteps(cs: seq<seq<Trace>>, b: nat)
    requires b < |cs|
    ensures SumLen(cs[..b + 1]) == SumLen(cs[..b]) + |cs[b]|
  {
    if b == 0 {
      assert cs[..1] == [cs[0]];
      assert cs[..1][1..] == [];
    } else {
      assert cs[..b + 1][1..] == cs[1..][..b] && cs[..b][1..] == cs[1..][..b - 1];
      SumSteps(cs[1..], b - 1);
    }
  }
}
