/** uthash: an intrusive hash table whose items are chained in buckets and, at the same time, linked in the order of
    their insertion. */
module UtHash {
  import opened Words
  import opened TraceItem
  import opened Chains
  import opened ExpansionPolicy

  const INITIAL_NUM_BUCKETS := 32
  const INITIAL_NUM_BUCKETS_LOG2 := 5

  /** The chains of a new table. */
  ghost const NO_CHAINS: seq<seq<Trace>> := seq(INITIAL_NUM_BUCKETS, _ => [])

  /** A table: the `head` pointer of the user and the UT_hash_table every handle points to.  Its abstract value is
      `order`, the items in insertion order, and `contents`, the map from keys to items; `chains` are the bucket chains,
      front to back. */
  class Hash {
    const hashFcn: seq<Byte> -> Word

    var head: Trace?

    // The fields of UT_hash_table; without meaning while `head` is null.
    var buckets: array<Bucket>
    var numBuckets: nat
    var log2NumBuckets: nat
    var numItems: nat
    var tail: Trace?
    var idealChainMaxlen: nat
    var nonidealItems: nat
    var ineffExpands: nat
    var noexpand: nat

    ghost var order: seq<Trace>
    ghost var items: set<Trace>
    ghost var chains: seq<seq<Trace>>
    ghost var contents: map<seq<Byte>, Trace>

    /** `m` is the map from the keys of the items of `s` to the items. */
    ghost predicate Keyed(s: set<Trace>, m: map<seq<Byte>, Trace>)
      reads s`key, s`hashv
    {
      && (forall t <- s :: t.key in m && m[t.key] == t && t.hashv == hashFcn(t.key))
      && (forall k <- m :: m[k] in s && m[k].key == k)
    }

    /** The application-order list, front to back, is well linked from `head` to `tail`. */
    ghost predicate Linked()
      reads `order, `items, `head, `tail, order`next, order`prev
    {
      && Elements(order) == items && Distinct(order)
      && order != [] && head == order[0] && tail == order[|order| - 1]
      && AppLinks(order)
    }

    /** The list half of the invariant. */
    ghost predicate Listed()
      reads `order, `items, `contents, `head, `tail, `numItems, order`next, order`prev, items`key, items`hashv
    {
      Linked() && numItems == |order| && Keyed(items, contents)
    }

    /** The bucket half of the invariant, for a table whose buckets hold the items of `s`. */
    ghost predicate Bucketed(s: set<Trace>)
      reads `chains, `buckets, `numBuckets, `log2NumBuckets, buckets, s`hashv, s`hhNext, s`hhPrev
    {
      && log2NumBuckets >= INITIAL_NUM_BUCKETS_LOG2 && numBuckets == Pow2(log2NumBuckets) == |chains|
      && Placed(s, chains) && ChainsLinked(chains, s) && Describes(buckets, chains)
    }

    /** The expansion half of the invariant. */
    ghost predicate Policy()
      reads `noexpand, `buckets, `idealChainMaxlen, buckets
    {
      && noexpand <= 1 && idealChainMaxlen <= BKT_CAPACITY_THRESH
      && (noexpand == 0 ==> Bounded(buckets[..]))
    }

    /** What every operation keeps; HASH_FSCK spells out its link and counter clauses. */
    ghost predicate Valid()
      reads this, buckets, order`next, order`prev
      reads items`key, items`hashv, items`hhNext, items`hhPrev
    {
      if head == null then order == [] && items == {} && contents == map[]
      else Listed() && Bucketed(items) && Policy()
    }

    /** The null head pointer of an empty table. */
    constructor (hashFcn: seq<Byte> -> Word)
      ensures Valid() && order == [] && contents == map[] && this.hashFcn == hashFcn
      ensures fresh(buckets)
    {
      this.hashFcn := hashFcn;
      head, tail := null, null;
      order, items, chains, contents := [], {}, [], map[];
      buckets := new Bucket[0];
    }

    /** HASH_FIND. */
    method Find(key: seq<Byte>) returns (out: Trace?)
      requires Valid()
      ensures out == if key in contents then contents[key] else null
    {
      out := null;
      if head != null {
        var bkt := BucketOf(hashFcn(key), numBuckets);
        assert ChainLinks(chains[bkt]);
        out := FindInBkt(buckets[bkt], key, chains[bkt]);
      }
    }

    /** HASH_MAKE_TABLE. */
    method MakeTable()
      modifies this`buckets, this`numBuckets, this`log2NumBuckets, this`numItems, this`tail, this`idealChainMaxlen,
               this`nonidealItems, this`ineffExpands, this`noexpand, this`chains
      ensures tail == head && numBuckets == buckets.Length == 32 && log2NumBuckets == 5
      ensures numItems == idealChainMaxlen == nonidealItems == ineffExpands == noexpand == 0
      ensures chains == NO_CHAINS && fresh(buckets) && Bucketed({}) && Policy()
    {
      hide Placed, ChainsLinked, Describes, Bounded;
      tail := head;
      numBuckets, log2NumBuckets := INITIAL_NUM_BUCKETS, INITIAL_NUM_BUCKETS_LOG2;
      numItems, idealChainMaxlen, nonidealItems, ineffExpands, noexpand := 0, 0, 0, 0, 0;
      buckets := new Bucket[INITIAL_NUM_BUCKETS](_ => EMPTY_BUCKET);
      chains := NO_CHAINS;
      EmptyBuckets(buckets, chains);
      assert Pow2(INITIAL_NUM_BUCKETS_LOG2) == INITIAL_NUM_BUCKETS;
    }

    /** One more item in bucket `b` sets off an expansion. */
    ghost predicate Filled(b: nat)
      requires b < buckets.Length
      reads `buckets, `noexpand, buckets
    {
      buckets[b].count + 1 >= (buckets[b].expandMult + 1) * BKT_CAPACITY_THRESH && noexpand != 1
    }

    /** A bucket is full at ten items, with a multiplier m at ten more for each of m, and never once expansion is
        inhibited. */
    lemma FilledExactly(b: nat)
      requires b < buckets.Length
      ensures Filled(b) <==> noexpand != 1 && buckets[b].count >= 10 * buckets[b].expandMult + 9
    {}

    /** The chains are those of `cs` with `t` in front of chain `b`, redistributed when the table was expanded. */
    ghost predicate Chained(cs: seq<seq<Trace>>, b: nat, t: Trace, expanded: bool)
      reads `chains, `items, items`hashv
    {
      && b < |cs|
      && var pushed := cs[b := [t] + cs[b]];
         if expanded then Redistributed(pushed, chains, Hashes()) else chains == pushed
    }

    /** HASH_ADD_KEYPTR. */
    method Add(t: Trace, key: seq<Byte>)
      requires Valid() && t !in items
      requires key !in contents
      modifies this, buckets, items`next, items`hhNext, items`hhPrev
      modifies t`next, t`prev, t`hhNext, t`hhPrev, t`key, t`hashv
      ensures Valid() && order == old(order) + [t] && items == old(items) + {t}
      ensures t.key == key && contents == old(contents)[key := t]
      ensures buckets == old(buckets) || fresh(buckets)
      ensures old(head) == null ==> Chained(NO_CHAINS, BucketOf(hashFcn(key), INITIAL_NUM_BUCKETS), t, false)
      ensures old(head) != null ==>
                var b := BucketOf(hashFcn(key), old(numBuckets)); Chained(old(chains), b, t, old(Filled(b)))
      ensures old(head) == null || old(noexpand) == 0 ==> Bounded(buckets[..])
    {
      hide Listed, Bucketed, Policy, Bounded, Chained;
      AddToList(t, key);
      var bkt := BucketOf(t.hashv, numBuckets);
      BucketExists(bkt, old(items));
      AddToBkt(bkt, t, old(items));
    }

    lemma BucketExists(b: nat, s: set<Trace>)
      requires Bucketed(s) && b < numBuckets
      ensures b < |chains| && b < buckets.Length && (chains[b] == [] ==> !Filled(b))
    {}

    /** HASH_ADD_KEYPTR up to the bucket. */
    method AddToList(t: Trace, key: seq<Byte>)
      requires Valid() && t !in items
      requires key !in contents
      modifies this, items`next
      modifies t`next, t`prev, t`key, t`hashv
      ensures head != null && Listed() && Bucketed(old(items)) && Policy() && numBuckets > 0
      ensures order == old(order) + [t] && items == old(items) + {t}
      ensures t.key == key && t.hashv == hashFcn(key) && contents == old(contents)[key := t]
      ensures if old(head) == null
              then fresh(buckets) && chains == NO_CHAINS && numBuckets == INITIAL_NUM_BUCKETS && noexpand == 0
              else buckets == old(buckets) && chains == old(chains) && numBuckets == old(numBuckets)
                   && noexpand == old(noexpand)
    {
      hide Linked, Bucketed, Policy, Bounded, Keyed;
      ghost var others := items;
      ContentsAreItems();
      t.key := key;
      if head == null {
        AddFirst(t);
      } else {
        AddLast(t);
      }
      assert Bucketed(others) && Policy() && Keyed(others, contents);
      numItems := numItems + 1;
      SetHash(t, others);
      assert items == others + {t};
    }

    /** Hashes the key of `t`, which is new to the items of `others`. */
    method SetHash(t: Trace, ghost others: set<Trace>)
      requires Keyed(others, contents) && t !in others && t.key !in contents
      modifies `contents, t`hashv
      ensures t.hashv == hashFcn(t.key) && contents == old(contents)[t.key := t] && Keyed(others + {t}, contents)
    {
      t.hashv := hashFcn(t.key);
      KeyedAdd(others, contents, t);
      contents := contents[t.key := t];
    }

    lemma KeyedAdd(s: set<Trace>, m: map<seq<Byte>, Trace>, t: Trace)
      requires Keyed(s, m) && t !in s && t.key !in m && t.hashv == hashFcn(t.key)
      ensures Keyed(s + {t}, m[t.key := t])
    {}

    lemma KeyedRemove(s: set<Trace>, m: map<seq<Byte>, Trace>, t: Trace)
      requires Keyed(s, m) && t in s
      ensures t.key in m && m[t.key] == t && Keyed(s - {t}, m - {t.key})
      ensures s == {t} ==> m - {t.key} == map[]
    {}

    lemma ContentsAreItems()
      requires Valid()
      ensures Keyed(items, contents) && (head != null ==> numBuckets > 0)
      ensures forall k <- contents :: contents[k] in items && contents[k].key == k
    {}

    /** HASH_ADD_KEYPTR into an empty table: makes the table and starts the list. */
    method AddFirst(t: Trace)
      requires head == null && order == [] && items == {}
      modifies this, t`next, t`prev
      ensures head != null && Linked() && order == [t] && items == {t} && contents == old(contents)
      ensures numItems == 0 && noexpand == 0 && numBuckets == INITIAL_NUM_BUCKETS && chains == NO_CHAINS
      ensures fresh(buckets) && Bucketed({}) && Policy() && Bounded(buckets[..])
    {
      t.next := null;
      head := t;
      t.prev := null;
      MakeTable();
      order, items := [t], {t};
    }

    /** HASH_ADD_KEYPTR into a table with items: appends to the list. */
    method AddLast(t: Trace)
      requires Linked() && t !in items
      modifies `tail, `order, `items, items`next, t`next, t`prev
      ensures head != null && Linked() && order == old(order) + [t] && items == old(items) + {t}
    {
      t.next := null;
      tail.next := t;
      t.prev := tail;
      tail := t;
      AppendedLinks(order, t);
      order, items := order + [t], items + {t};
    }

    /** HASH_DELETE; freeing the table with the last item is forgetting its buckets. */
    method Delete(t: Trace)
      requires Valid() && t in items
      modifies this, buckets, items`next, items`prev, items`hhNext, items`hhPrev
      ensures Valid() && order == Without(old(order), t) && items == old(items) - {t}
      ensures contents == old(contents) - {t.key}
      ensures buckets == old(buckets) && noexpand == old(noexpand) && (head == null <==> order == [])
      ensures head != null ==>
                var b := BucketOf(t.hashv, numBuckets); chains == old(chains)[b := Without(old(chains)[b], t)]
    {
      hide Linked, Bucketed, Policy, Keyed, Without;
      LastItem(t);
      KeyedRemove(items, contents, t);
      if t.prev == null && t.next == null {
        head := null;
        order, items, contents := [], {}, map[];
      } else {
        DeleteAmongOthers(t);
      }
    }

    /** HASH_DELETE of an item that is not the last one. */
    method DeleteAmongOthers(t: Trace)
      requires Listed() && Bucketed(items) && Policy() && t in items && |order| > 1
      modifies `head, `tail, `order, `items, `contents, `numItems, `chains
      modifies buckets, items`next, items`prev, items`hhNext, items`hhPrev
      ensures head != null && Listed() && Bucketed(items) && Policy()
      ensures order == Without(old(order), t) && items == old(items) - {t} && contents == old(contents) - {t.key}
      ensures var b := BucketOf(t.hashv, numBuckets); chains == old(chains)[b := Without(old(chains)[b], t)]
    {
      hide Linked, Bucketed, Policy, Keyed, Without;
      LastItem(t);
      KeyedRemove(items, contents, t);
      ghost var all := items;
      Unlink(t);
      contents := contents - {t.key};
      Unchain(t, all);
      numItems := numItems - 1;
    }

    /** The bucket half of HASH_DELETE. */
    method Unchain(t: Trace, ghost all: set<Trace>)
      requires Bucketed(all) && Policy() && t in all
      modifies `chains, buckets, all`hhNext, all`hhPrev
      ensures Bucketed(all - {t}) && Policy()
      ensures var b := BucketOf(t.hashv, numBuckets); chains == old(chains)[b := Without(old(chains)[b], t)]
    {
      hide Placed, ChainsLinked, Describes, Bounded, Without;
      var bkt := BucketOf(t.hashv, numBuckets);
      DelInBkt(buckets, bkt, t, chains, all);
      chains := chains[bkt := Without(chains[bkt], t)];
      if noexpand == 0 {
        StaysBounded(old(buckets[..]), bkt, buckets[bkt]);
      }
    }

    lemma LastItem(t: Trace)
      requires Linked() && t in items
      ensures t.prev == null && t.next == null <==> |order| == 1
      ensures |Without(order, t)| == |order| - 1
      ensures |order| == 1 ==> items == {t} && Without(order, t) == []
    {
      var i :| 0 <= i < |order| && order[i] == t;
      CutAt(order, i, 0);
    }

    lemma Position(t: Trace) returns (i: nat)
      requires Linked() && t in items
      ensures i < |order| && order[i] == t && (t == tail <==> i == |order| - 1)
      ensures t.prev == At(order, i - 1) && t.next == At(order, i + 1)
    {
      i :| 0 <= i < |order| && order[i] == t;
    }

    /** HASH_DELETE's patch-up of the application-order list. */
    method Unlink(t: Trace)
      requires Linked() && t in items && |order| > 1
      modifies `head, `tail, `order, `items, items`next, items`prev
      ensures Linked() && order == Without(old(order), t) && items == old(items) - {t} && head != null
    {
      hide Without, AppLinks, Distinct;
      ghost var i := Position(t);
      if t == tail {
        tail := t.prev;
      }
      if t.prev == null {
        head := t.next;
      }
      AppLinkOut(t, order, i);
      AppLinkedAround(order, i);
      CutAt(order, i, 0);
      CutAt(order, i, |order| - 2);
      WithoutKeeps(order, t);
      order, items := Without(order, t), items - {t};
    }

    /** HASH_REPLACE. */
    method Replace(t: Trace, key: seq<Byte>) returns (replaced: Trace?)
      requires Valid() && t !in items
      modifies this, buckets, items`next, items`prev, items`hhNext, items`hhPrev
      modifies t`next, t`prev, t`hhNext, t`hhPrev, t`key, t`hashv
      ensures Valid() && t.key == key
      ensures replaced == if key in old(contents) then old(contents)[key] else null
      ensures contents == old(contents)[key := t]
      ensures order == (if replaced == null then old(order) else Without(old(order), replaced)) + [t]
      ensures items == (if replaced == null then old(items) else old(items) - {replaced}) + {t}
    {
      hide Listed, Bucketed, Policy, Without;
      ContentsAreItems();
      replaced := Find(key);
      if replaced != null {
        Delete(replaced);
      }
      Add(t, key);
    }

    /** HASH_ADD_TO_BKT: chains the listed item `t` and expands the table when its bucket is full. */
    method AddToBkt(bkt: nat, t: Trace, ghost others: set<Trace>)
      requires Listed() && t !in others && items == others + {t} && Bucketed(others) && Policy()
      requires bkt == BucketOf(t.hashv, numBuckets)
      modifies this`buckets, this`numBuckets, this`log2NumBuckets, this`idealChainMaxlen,
               this`nonidealItems, this`ineffExpands, this`noexpand, this`chains
      modifies buckets, items`hhNext, items`hhPrev
      ensures Listed() && Bucketed(items) && Policy()
      ensures buckets == old(buckets) || fresh(buckets)
      ensures Chained(old(chains), bkt, t, old(Filled(bkt)))
      ensures !old(Filled(bkt)) ==> buckets == old(buckets) && noexpand == old(noexpand)
      ensures !old(Filled(bkt)) ==>
                forall b :: 0 <= b < buckets.Length ==> buckets[b].expandMult == old(buckets[b].expandMult)
      ensures old(noexpand) == 0 ==> Bounded(buckets[..])
    {
      hide Placed, ChainsLinked, Linked, Keyed, Redistributed, MultsSet, NonIdeal, IsCeiling, Hashes;
      PushFront(buckets, bkt, t, buckets[bkt].expandMult, chains, others);
      chains := chains[bkt := [t] + chains[bkt]];
      if buckets[bkt].count >= (buckets[bkt].expandMult + 1) * BKT_CAPACITY_THRESH && noexpand != 1 {
        GrownHoldsFewItems(old(buckets[..]), bkt, buckets[bkt]);
        CountListed(buckets, chains);
        ExpandBuckets();
      } else if noexpand == 0 {
        StaysBounded(old(buckets[..]), bkt, buckets[bkt]);
      }
    }

    /** The bucket counters add up to the number of items. */
    lemma CountListed(bs: array<Bucket>, cs: seq<seq<Trace>>)
      requires Listed() && Placed(items, cs) && Describes(bs, cs)
      ensures SumCount(bs[..]) == numItems > 0
    {
      CountElements(order);
      ChainLengthsAddUp(items, cs);
      CountersAddUp(bs[..], cs);
    }

    /** While expansion is not inhibited, the load of the table is bounded. */
    lemma LoadIsBounded()
      requires Valid() && head != null && noexpand == 0
      ensures numItems < 20 * numBuckets && idealChainMaxlen <= BKT_CAPACITY_THRESH
      ensures forall b :: 0 <= b < numBuckets ==> |chains[b]| <= BKT_CAPACITY_THRESH * (buckets[b].expandMult + 1)
    {
      CountListed(buckets, chains);
      BoundedHoldsFewItems(buckets[..]);
      forall b | 0 <= b < numBuckets
        ensures |chains[b]| <= BKT_CAPACITY_THRESH * (buckets[b].expandMult + 1)
      {
        assert WithinCapacity(buckets[..][b]);
      }
    }

    /** HASH_EXPAND_BUCKETS: doubles the bucket array and moves every item to its new bucket. */
    method ExpandBuckets()
      requires Listed() && Bucketed(items)
      requires 0 < numItems <= 20 * numBuckets
      modifies this`buckets, this`numBuckets, this`log2NumBuckets, this`idealChainMaxlen,
               this`nonidealItems, this`ineffExpands, this`noexpand, this`chains
      modifies items`hhNext, items`hhPrev
      ensures Listed() && Bucketed(items) && fresh(buckets)
      ensures numBuckets == 2 * old(numBuckets)
      ensures Redistributed(old(chains), chains, old(Hashes()))
      ensures IsCeiling(idealChainMaxlen, numItems, numBuckets)
      ensures 0 < idealChainMaxlen <= BKT_CAPACITY_THRESH && MultsSet(buckets, idealChainMaxlen)
      ensures forall b :: 0 <= b < buckets.Length ==> Shares(buckets[b], idealChainMaxlen)
      ensures nonidealItems == NonIdeal(chains, idealChainMaxlen)
      ensures ineffExpands == if nonidealItems > numItems / 2 then old(ineffExpands) + 1 else 0
      ensures noexpand == if ineffExpands > 1 then 1 else old(noexpand)
      ensures Bounded(buckets[..])
    {
      hide Listed, Placed, ChainsLinked, Describes, MultsSet, Redistributed, NonIdeal, Bounded, Hashes, IsCeiling,
           Shares;
      var newBuckets; ghost var newChains;
      newBuckets, newChains := Rehash();
      buckets, chains := newBuckets, newChains;
      numBuckets, log2NumBuckets := numBuckets * 2, log2NumBuckets + 1;
      ineffExpands := if nonidealItems > numItems / 2 then ineffExpands + 1 else 0;
      if ineffExpands > 1 {
        noexpand := 1;
      }
    }

    /** The new bucket array of HASH_EXPAND_BUCKETS. */
    method Rehash() returns (newBuckets: array<Bucket>, ghost newChains: seq<seq<Trace>>)
      requires Listed() && Bucketed(items)
      requires 0 < numItems <= 20 * numBuckets
      modifies this`idealChainMaxlen, this`nonidealItems, items`hhNext, items`hhPrev
      ensures Listed() && fresh(newBuckets)
      ensures newBuckets.Length == |newChains| == 2 * numBuckets == Pow2(log2NumBuckets + 1)
      ensures Placed(items, newChains) && ChainsLinked(newChains, items) && Describes(newBuckets, newChains)
      ensures Redistributed(chains, newChains, Hashes())
      ensures IsCeiling(idealChainMaxlen, numItems, 2 * numBuckets)
      ensures 0 < idealChainMaxlen <= BKT_CAPACITY_THRESH && MultsSet(newBuckets, idealChainMaxlen)
      ensures forall b :: 0 <= b < newBuckets.Length ==> Shares(newBuckets[b], idealChainMaxlen)
      ensures nonidealItems == NonIdeal(newChains, idealChainMaxlen)
      ensures Bounded(newBuckets[..])
    {
      hide Linked, Keyed, Placed, ChainsLinked, Describes, MultsSet, Redistributed, NonIdeal, Bounded, Hashes,
           IsCeiling, IdealChainMaxlen, Shares;
      SetIdeal();
      newBuckets := new Bucket[2 * numBuckets](_ => EMPTY_BUCKET);
      nonidealItems, newChains := MoveAll(newBuckets, Hashes());
      NewBucketsBounded(newBuckets, newChains);
      MultsShare(newBuckets, idealChainMaxlen);
    }

    /** The ideal chain length of the doubled table. */
    method SetIdeal()
      requires 0 < numItems <= 20 * numBuckets && numBuckets == Pow2(log2NumBuckets)
      modifies this`idealChainMaxlen
      ensures idealChainMaxlen == IdealChainMaxlen(numItems, numBuckets, log2NumBuckets)
      ensures IsCeiling(idealChainMaxlen, numItems, 2 * numBuckets)
      ensures 2 * numBuckets == Pow2(log2NumBuckets + 1)
      ensures 0 < idealChainMaxlen <= BKT_CAPACITY_THRESH
    {
      idealChainMaxlen := IdealChainMaxlen(numItems, numBuckets, log2NumBuckets);
      IdealIsSmall(numItems, log2NumBuckets);
      IdealIsCeiling(numItems, log2NumBuckets);
    }

    lemma NewBucketsBounded(bs: array<Bucket>, cs: seq<seq<Trace>>)
      requires Listed() && Placed(items, cs) && Describes(bs, cs)
      requires numItems <= 20 * Pow2(log2NumBuckets) && bs.Length == Pow2(log2NumBuckets + 1)
      requires idealChainMaxlen == IdealChainMaxlen(numItems, Pow2(log2NumBuckets), log2NumBuckets) > 0
      requires MultsSet(bs, idealChainMaxlen)
      ensures Bounded(bs[..])
    {
      hide Linked, Keyed, Placed, Bounded;
      CountListed(bs, cs);
      ExpansionBounds(bs[..], numItems, log2NumBuckets);
    }

    ghost function Hashes(): (m: map<Trace, Word>)
      reads `items, items`hashv
      ensures m.Keys == items
    {
      map t <- items :: t.hashv
    }

    /** The outer loop of HASH_EXPAND_BUCKETS. */
    method MoveAll(newBuckets: array<Bucket>, ghost hashes: map<Trace, Word>)
      returns (nonideal: nat, ghost newChains: seq<seq<Trace>>)
      requires Bucketed(items) && newBuckets != buckets && newBuckets.Length == 2 * numBuckets
      requires forall j :: 0 <= j < newBuckets.Length ==> newBuckets[j] == EMPTY_BUCKET
      requires idealChainMaxlen > 0 && hashes == Hashes()
      modifies newBuckets, items`hhNext, items`hhPrev
      ensures |newChains| == newBuckets.Length
      ensures Placed(items, newChains) && ChainsLinked(newChains, items)
      ensures Describes(newBuckets, newChains) && MultsSet(newBuckets, idealChainMaxlen)
      ensures Redistributed(chains, newChains, hashes)
      ensures nonideal == NonIdeal(newChains, idealChainMaxlen)
    {
      hide Placed, ChainsLinked, Describes, MultsSet, NextLinks, Progress, NonIdeal, Hashes, Below, Redistributed;
      var i := 0;
      ghost var moved: set<Trace> := {};
      nonideal, newChains := 0, seq(2 * numBuckets, _ => []);
      NothingMoved(newBuckets, newChains, hashes);
      while i < numBuckets
        invariant i <= numBuckets && |newChains| == newBuckets.Length
        invariant moved == Below(i)
        invariant Placed(moved, newChains) && ChainsLinked(newChains, moved)
        invariant Describes(newBuckets, newChains) && MultsSet(newBuckets, idealChainMaxlen)
        invariant forall b :: i <= b < numBuckets ==> NextLinks(chains[b], 0)
        invariant Progress(chains, newChains, hashes, i)
        invariant nonideal == NonIdeal(newChains, idealChainMaxlen)
      {
        MovingNext(i, hashes);
        ghost var before := newChains;
        var more;
        more, newChains := MoveChain(newBuckets, buckets[i].head, idealChainMaxlen, chains[i], newChains, moved,
                                     hashes);
        forall b | i < b < numBuckets
          ensures NextLinks(chains[b], 0)
        {
        }
        nonideal := nonideal + more;
        moved := moved + Elements(chains[i]);
        ProgressStep(chains, before, newChains, hashes, i, log2NumBuckets);
        i := i + 1;
      }
      AllMoved(newChains, hashes);
    }

    /** The items of the first `i` buckets. */
    ghost function Below(i: nat): set<Trace>
      requires numBuckets > 0
      reads `items, `numBuckets, items`hashv
    {
      set t | t in items && BucketOf(t.hashv, numBuckets) < i
    }

    lemma NothingMoved(newBuckets: array<Bucket>, newChains: seq<seq<Trace>>, hashes: map<Trace, Word>)
      requires Bucketed(items) && |newChains| == newBuckets.Length == 2 * numBuckets && idealChainMaxlen > 0
      requires forall j :: 0 <= j < |newChains| ==> newBuckets[j] == EMPTY_BUCKET && newChains[j] == []
      ensures Below(0) == {}
      ensures Placed({}, newChains) && ChainsLinked(newChains, {})
      ensures Describes(newBuckets, newChains) && MultsSet(newBuckets, idealChainMaxlen)
      ensures forall b :: 0 <= b < numBuckets ==> NextLinks(chains[b], 0)
      ensures Progress(chains, newChains, hashes, 0)
      ensures NonIdeal(newChains, idealChainMaxlen) == 0
    {
      NoneNonIdeal(newChains, idealChainMaxlen);
      forall b | 0 <= b < numBuckets ensures NextLinks(chains[b], 0) {
        assert ChainLinks(chains[b]);
      }
    }

    lemma MovingNext(i: nat, hashes: map<Trace, Word>)
      requires numBuckets > 0 && |chains| == numBuckets && Placed(items, chains)
      requires i < numBuckets && hashes == Hashes() && Describes(buckets, chains)
      ensures i < buckets.Length && buckets[i].head == At(chains[i], 0)
      ensures (forall t <- chains[i] :: t in items) && Below(i) <= items
      ensures Distinct(chains[i]) && forall t <- chains[i] :: t !in Below(i) && t in hashes && hashes[t] == t.hashv
      ensures Below(i + 1) == Below(i) + Elements(chains[i])
      ensures forall b :: i < b < numBuckets ==> forall t <- chains[b] :: t !in chains[i]
      ensures HomeIs(chains[i], hashes, i, numBuckets)
    {
    }

    lemma AllMoved(newChains: seq<seq<Trace>>, hashes: map<Trace, Word>)
      requires numBuckets > 0 && |chains| == numBuckets && |newChains| == 2 * numBuckets
      requires Progress(chains, newChains, hashes, numBuckets)
      ensures Below(numBuckets) == items
      ensures Redistributed(chains, newChains, hashes)
    {
    }
  }

  /** HASH_FIND_IN_BKT. */
  method FindInBkt(b: Bucket, key: seq<Byte>, ghost chain: seq<Trace>) returns (out: Trace?)
    requires ChainLinks(chain) && b.head == At(chain, 0)
    ensures out != null ==> out in chain && out.key == key
    ensures out == null ==> forall t <- chain :: t.key != key
  {
    out := b.head;
    ghost var k := 0;
    while out != null
      invariant 0 <= k <= |chain| && out == At(chain, k)
      invariant forall j :: 0 <= j < k ==> chain[j].key != key
      decreases |chain| - k
    {
      if out.key == key {
        break;
      }
      out := out.hhNext;
      k := k + 1;
    }
  }

  lemma {:induction false} CountersAddUp(bs: seq<Bucket>, cs: seq<seq<Trace>>)
    requires |bs| == |cs| && forall b :: 0 <= b < |bs| ==> bs[b].count == |cs[b]|
    ensures SumCount(bs) == SumLen(cs)
  {
    if bs != [] {
      CountersAddUp(bs[1..], cs[1..]);
    }
  }

  /** `cs'` after moving the first `i` chains of `cs`. */
  ghost predicate Progress(cs: seq<seq<Trace>>, cs': seq<seq<Trace>>, hashes: map<Trace, Word>, i: nat)
  {
    && 0 < |cs| && |cs'| == 2 * |cs|
    && forall j :: 0 <= j < |cs'| ==>
         cs'[j] == if Source(j, |cs|) < i then Moved(cs[Source(j, |cs|)], j, |cs'|, hashes) else []
  }

  /** All items of `c` belong in bucket `i` of `n`. */
  ghost predicate HomeIs(c: seq<Trace>, hashes: map<Trace, Word>, i: nat, n: nat)
    requires n > 0
  {
    forall t <- c :: t in hashes && BucketOf(hashes[t], n) == i
  }

  lemma {:induction false} MovedElsewhere(c: seq<Trace>, hashes: map<Trace, Word>, i: nat, j: nat, k: nat)
    requires HomeIs(c, hashes, i, Pow2(k)) && j < 2 * Pow2(k) && Source(j, Pow2(k)) != i
    ensures Moved(c, j, 2 * Pow2(k), hashes) == []
  {
    if c != [] {
      MovedElsewhere(c[..|c| - 1], hashes, i, j, k);
      DoubledBucket(hashes[c[|c| - 1]], k);
    }
  }

  lemma ProgressStep(cs: seq<seq<Trace>>, before: seq<seq<Trace>>, after: seq<seq<Trace>>, hashes: map<Trace, Word>,
                     i: nat, k: nat)
    requires Progress(cs, before, hashes, i) && i < |cs| == Pow2(k) && HomeIs(cs[i], hashes, i, |cs|)
    requires |after| == |before|
    requires forall j :: 0 <= j < |after| ==> after[j] == Moved(cs[i], j, |after|, hashes) + before[j]
    ensures Progress(cs, after, hashes, i + 1)
  {
    forall j | 0 <= j < |after| && Source(j, |cs|) != i
      ensures after[j] == before[j]
    {
      MovedElsewhere(cs[i], hashes, i, j, k);
    }
  }

  lemma {:induction false} NoneNonIdeal(cs: seq<seq<Trace>>, ideal: nat)
    requires forall j :: 0 <= j < |cs| ==> cs[j] == []
    ensures NonIdeal(cs, ideal) == 0
  {
    if cs != [] {
      NoneNonIdeal(cs[..|cs| - 1], ideal);
    }
  }

  lemma AppendedLinks(s: seq<Trace>, t: Trace)
    requires |s| > 0 && Distinct(s) && t !in s
    requires forall i {:trigger s[i].next} :: 0 <= i < |s| ==> s[i].next == if i == |s| - 1 then t else s[i + 1]
    requires forall i {:trigger s[i].prev} :: 0 <= i < |s| ==> s[i].prev == At(s, i - 1)
    requires t.prev == s[|s| - 1] && t.next == null
    ensures AppLinks(s + [t]) && Distinct(s + [t]) && Elements(s + [t]) == Elements(s) + {t}
  {}

  lemma EmptyBuckets(bs: array<Bucket>, cs: seq<seq<Trace>>)
    requires bs.Length == |cs| > 0
    requires forall j :: 0 <= j < |cs| ==> bs[j] == EMPTY_BUCKET && cs[j] == []
    ensures Placed({}, cs) && ChainsLinked(cs, {}) && Describes(bs, cs) && Bounded(bs[..])
  {
    EmptyIsBounded(bs[..]);
  }

  lemma {:induction false} EmptyIsBounded(bs: seq<Bucket>)
    requires forall b :: 0 <= b < |bs| ==> bs[b] == EMPTY_BUCKET
    ensures Bounded(bs) && SumMult(bs) == 0
  {
    if bs != [] {
      EmptyIsBounded(bs[1..]);
    }
  }
}
