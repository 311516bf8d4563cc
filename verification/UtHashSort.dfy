/** HASH_SRT: the in-place merge sort of the application-order list. */
module UtHashSort {
  import opened TraceItem
  import opened Chains
  import opened UtHash
  import opened MergeSort

  ghost predicate NextFrom(s: seq<Trace>, lo: nat, hi: nat)
    reads s`next
  {
    forall k {:trigger s[k].next} :: lo <= k < hi && k < |s| ==> s[k].next == At(s, k + 1)
  }

  /** The output list: linked up to its last item, whose `next` is still stale. */
  ghost predicate OutLinks(out: seq<Trace>)
    reads out`next, out`prev
  {
    && (forall i {:trigger out[i].next} :: 0 <= i < |out| - 1 ==> out[i].next == out[i + 1])
    && (forall i {:trigger out[i].prev} :: 0 <= i < |out| ==> out[i].prev == At(out, i - 1))
  }

  ghost predicate IsOut(out: seq<Trace>, list: Trace?, tail: Trace?)
  {
    Distinct(out) && list == At(out, 0) && tail == At(out, |out| - 1)
  }

  /** Appends `e` to the output list. */
  method Emit(e: Trace, list: Trace?, tail: Trace?, ghost out: seq<Trace>) returns (list': Trace?)
    requires OutLinks(out) && IsOut(out, list, tail) && e !in out
    modifies e`prev, Elements(out)`next
    ensures OutLinks(out + [e]) && IsOut(out + [e], list', e)
    ensures forall t <- out :: t != tail ==> t.next == old(t.next)
  {
    list' := list;
    if tail != null {
      tail.next := e;
    } else {
      list' := e;
    }
    e.prev := tail;
    ghost var r := out + [e];
    forall i | 0 <= i < |r| - 1
      ensures r[i].next == r[i + 1]
    {
      if i < |out| - 1 {
        assert out[i] != tail;
      }
    }
    forall i | 0 <= i < |r|
      ensures r[i].prev == At(r, i - 1)
    {
    }
  }

  /** Steps over the left run of at most `insize` items. */
  method SkipRun(p: Trace, insize: nat, ghost src: seq<Trace>, ghost b: nat) returns (psize: nat, q: Trace?)
    requires b < |src| && p == src[b] && NextFrom(src, b, |src|) && insize > 0
    ensures psize == Min(insize, |src| - b) && q == At(src, b + psize)
  {
    q, psize := p, 0;
    var i := 0;
    while i < insize
      invariant i <= insize && psize == i && b + i < |src| && q == At(src, b + i)
    {
      psize := psize + 1;
      q := q.next;
      if q == null {
        break;
      }
      i := i + 1;
    }
  }

  /** The items not yet merged: the rest of the left run, and everything from `j` on. */
  ghost predicate Pending(src: seq<Trace>, i: nat, m: nat, j: nat, out: seq<Trace>)
    reads src`next
  {
    && i <= m <= j <= |src|
    && NextFrom(src, i, m) && NextFrom(src, j, |src|)
    && (forall k :: i <= k < m || j <= k < |src| ==> src[k] !in out)
    && (forall t <- out :: t in src)
  }

  /** Appends the next item `e`, taken from one of the runs, to the output list. */
  method EmitNext(e: Trace, list: Trace?, tail: Trace?, ghost src: seq<Trace>, ghost i: nat, ghost m: nat, ghost j: nat,
                  ghost i': nat, ghost j': nat, ghost out: seq<Trace>)
    returns (list': Trace?)
    requires Distinct(src) && Pending(src, i, m, j, out) && OutLinks(out) && IsOut(out, list, tail)
    requires if i < i' then i' == i + 1 <= m && j' == j && e == src[i]
             else i' == i && j' == j + 1 <= |src| && e == src[j]
    modifies e`prev, Elements(out)`next
    ensures Pending(src, i', m, j', out + [e])
    ensures OutLinks(out + [e]) && IsOut(out + [e], list', e)
  {
    hide OutLinks, IsOut;
    list' := Emit(e, list, tail, out);
    forall k | i' <= k < m || j' <= k < |src|
      ensures src[k] !in out + [e] && src[k].next == At(src, k + 1)
    {
    }
  }

  /** On the items of `src` as they are, `ord` compares as `cmp` does. */
  ghost predicate Agrees(cmp: (Item, Item) -> int, ord: (Trace, Trace) -> int, src: seq<Trace>)
    reads src`traceId, src`orderIndex, src`stack, src`threadId, src`key, src`hashv
  {
    forall x, y :: x in src && y in src ==> ord(x, y) == cmp(ItemOf(x), ItemOf(y))
  }

  lemma AgreesAt(cmp: (Item, Item) -> int, ord: (Trace, Trace) -> int, src: seq<Trace>, i: nat, j: nat)
    requires Agrees(cmp, ord, src)
    ensures i < |src| && j < |src| ==> ord(src[i], src[j]) == cmp(ItemOf(src[i]), ItemOf(src[j]))
  {}

  /** Merges the left run `src[b..m]` and the right run `src[m..e]` onto the output list. */
  method MergeRuns(p0: Trace, psize0: nat, q0: Trace?, insize: nat, list0: Trace?, tail0: Trace?,
                   cmp: (Item, Item) -> int, ghost ord: (Trace, Trace) -> int,
                   ghost src: seq<Trace>, ghost b: nat, ghost m: nat, ghost e: nat, ghost out0: seq<Trace>)
    returns (q: Trace?, list: Trace?, tail: Trace?, ghost out: seq<Trace>)
    requires Distinct(src) && Pending(src, b, m, m, out0) && Agrees(cmp, ord, src)
    requires OutLinks(out0) && IsOut(out0, list0, tail0)
    requires b < m && e == Min(m + insize, |src|)
    requires p0 == src[b] && psize0 == m - b && q0 == At(src, m)
    modifies Elements(src)`next, Elements(src)`prev
    ensures out == out0 + Merge(src[b..m], src[m..e], ord)
    ensures e <= |src| && Pending(src, m, m, e, out) && q == At(src, e)
    ensures OutLinks(out) && IsOut(out, list, tail)
  {
    hide Merge, OutLinks, IsOut, NextFrom, Agrees;
    var p: Trace?, psize, qsize := p0, psize0, insize;
    q, list, tail, out := q0, list0, tail0, out0;
    ghost var i, j := b, m;
    while psize > 0 || (qsize > 0 && q != null)
      invariant b <= i <= m <= j <= e && psize == m - i && qsize == insize - (j - m)
      invariant q == At(src, j) && (psize > 0 ==> p == src[i])
      invariant Pending(src, i, m, j, out) && Agrees(cmp, ord, src)
      invariant OutLinks(out) && IsOut(out, list, tail)
      invariant out + Merge(src[i..m], src[j..e], ord) == out0 + Merge(src[b..m], src[m..e], ord)
      decreases m - i + e - j
    {
      MergeStep(src, i, m, j, e, ord, out, out0 + Merge(src[b..m], src[m..e], ord));
      NextPending(src, i, m, j, out);
      AgreesAt(cmp, ord, src, i, j);
      ghost var i0, j0 := i, j;
      var next: Trace;
      if psize == 0 {
        next := q;
        q := q.next;
        qsize, j := qsize - 1, j + 1;
      } else if qsize == 0 || q == null {
        next := p;
        p := p.next;
        psize, i := psize - 1, i + 1;
      } else if cmp(ItemOf(p), ItemOf(q)) <= 0 {
        next := p;
        p := p.next;
        psize, i := psize - 1, i + 1;
      } else {
        next := q;
        q := q.next;
        qsize, j := qsize - 1, j + 1;
      }
      list := EmitNext(next, list, tail, src, i0, m, j0, i, j, out);
      tail := next;
      out := out + [next];
    }
    MergeDone(src, m, e, ord);
  }

  lemma MergeStep(src: seq<Trace>, i: nat, m: nat, j: nat, e: nat, cmp: (Trace, Trace) -> int,
                  out: seq<Trace>, target: seq<Trace>)
    requires i <= m <= j <= e <= |src| && (i < m || j < e)
    requires out + Merge(src[i..m], src[j..e], cmp) == target
    ensures if i < m && (j == e || cmp(src[i], src[j]) <= 0)
            then out + [src[i]] + Merge(src[i + 1..m], src[j..e], cmp) == target
            else out + [src[j]] + Merge(src[i..m], src[j + 1..e], cmp) == target
  {}

  lemma MergeDone(src: seq<Trace>, m: nat, e: nat, cmp: (Trace, Trace) -> int)
    requires m <= |src| && e <= |src|
    ensures Merge(src[m..m], src[e..e], cmp) == []
  {}

  lemma NextPending(src: seq<Trace>, i: nat, m: nat, j: nat, out: seq<Trace>)
    requires Pending(src, i, m, j, out)
    ensures i < m ==> src[i].next == At(src, i + 1) && src[i] !in out && src[i] in src
    ensures j < |src| ==> src[j].next == At(src, j + 1) && src[j] !in out && src[j] in src
  {}

  /** One pass over the list: merges neighbouring runs of `insize`. */
  method Pass(list0: Trace, insize: nat, cmp: (Item, Item) -> int, ghost ord: (Trace, Trace) -> int,
              ghost src: seq<Trace>)
    returns (list: Trace?, tail: Trace?, nmerges: nat, ghost out: seq<Trace>)
    requires insize > 0 && |src| > 0 && Distinct(src) && list0 == src[0] && NextFrom(src, 0, |src|)
    requires Agrees(cmp, ord, src)
    modifies Elements(src)`next, Elements(src)`prev
    ensures out == MergePass(src, insize, ord)
    ensures AppLinks(out) && IsOut(out, list, tail)
    ensures nmerges <= 1 <==> |src| <= 2 * insize
  {
    hide Merge, MergePass, OutLinks, NextFrom, Agrees;
    var p: Trace? := list0;
    ghost var b := 0;
    list, tail, nmerges, out := null, null, 0, [];
    PassStart(src, insize, ord);
    while p != null
      invariant b <= |src| && p == At(src, b)
      invariant Pending(src, b, b, b, out) && Agrees(cmp, ord, src)
      invariant OutLinks(out) && IsOut(out, list, tail)
      invariant out + MergePass(src[b..], insize, ord) == MergePass(src, insize, ord)
      invariant nmerges == 0 <==> b == 0
      invariant nmerges == 1 ==> b == Min(2 * insize, |src|)
      invariant nmerges > 1 ==> |src| > 2 * insize
      decreases |src| - b
    {
      PassStep(src, b, insize, ord, out, MergePass(src, insize, ord));
      PendingFrom(src, b, out);
      nmerges := nmerges + 1;
      var psize, q := SkipRun(p, insize, src, b);
      ghost var e := Min(b + psize + insize, |src|);
      PendingSplit(src, b, b + psize, out);
      q, list, tail, out := MergeRuns(p, psize, q, insize, list, tail, cmp, ord, src, b, b + psize, e, out);
      PendingNext(src, b + psize, e, out);
      p := q;
      b := e;
    }
    PassEnd(src, insize, ord);
    Terminate(tail, out);
  }

  lemma PassStart(src: seq<Trace>, insize: nat, cmp: (Trace, Trace) -> int)
    requires insize > 0 && NextFrom(src, 0, |src|)
    ensures src[0..] == src && Pending(src, 0, 0, 0, []) && OutLinks([])
  {}

  lemma PassEnd(src: seq<Trace>, insize: nat, cmp: (Trace, Trace) -> int)
    requires insize > 0
    ensures MergePass(src[|src|..], insize, cmp) == []
  {}

  lemma PassStep(src: seq<Trace>, b: nat, insize: nat, cmp: (Trace, Trace) -> int, out: seq<Trace>, target: seq<Trace>)
    requires insize > 0 && b < |src| && out + MergePass(src[b..], insize, cmp) == target
    ensures var m, e := b + Min(insize, |src| - b), Min(b + Min(insize, |src| - b) + insize, |src|);
            m <= e && out + Merge(src[b..m], src[m..e], cmp) + MergePass(src[e..], insize, cmp) == target
  {
    hide Merge, MergePass;
    var k := Min(insize, |src| - b);
    var m, e := b + k, Min(b + k + insize, |src|);
    var s := src[b..];
    assert e - b == Min(2 * insize, |s|);
    assert s[..k] == src[b..m] && s[k..e - b] == src[m..e] && s[e - b..] == src[e..];
    PassUnfolds(s, insize, cmp);
  }

  lemma PassUnfolds(s: seq<Trace>, n: nat, cmp: (Trace, Trace) -> int)
    requires n > 0 && s != []
    ensures var m, e := Min(n, |s|), Min(2 * n, |s|);
            MergePass(s, n, cmp) == Merge(s[..m], s[m..e], cmp) + MergePass(s[e..], n, cmp)
  {}

  lemma PendingFrom(src: seq<Trace>, b: nat, out: seq<Trace>)
    requires Pending(src, b, b, b, out)
    ensures NextFrom(src, b, |src|)
  {}

  lemma PendingSplit(src: seq<Trace>, b: nat, m: nat, out: seq<Trace>)
    requires Pending(src, b, b, b, out) && b <= m <= |src|
    ensures Pending(src, b, m, m, out)
  {}

  lemma PendingNext(src: seq<Trace>, m: nat, e: nat, out: seq<Trace>)
    requires Pending(src, m, m, e, out)
    ensures Pending(src, e, e, e, out)
  {}

  method Terminate(tail: Trace?, ghost out: seq<Trace>)
    requires Distinct(out) && OutLinks(out) && tail == At(out, |out| - 1)
    modifies Elements(out)`next
    ensures AppLinks(out)
  {
    if tail != null {
      tail.next := null;
    }
  }

  /** The items of a table as they are. */
  ghost function ItemsOf(ts: set<Trace>): map<Trace, Item>
    reads ts`traceId, ts`orderIndex, ts`stack, ts`threadId, ts`key, ts`hashv
  {
    map t <- ts :: ItemOf(t)
  }

  /** `cmp` on the items that `items` records. */
  ghost function ByItem(cmp: (Item, Item) -> int, items: map<Trace, Item>): (Trace, Trace) -> int
  {
    (x: Trace, y: Trace) => if x in items && y in items then cmp(items[x], items[y]) else 0
  }

  /** HASH_SRT: sorts the application order of `h`, touching nothing but its list links, head and tail. */
  method Sort(h: Hash, cmp: (Item, Item) -> int)
    requires h.Valid()
    modifies h`head, h`tail, h`order, h.items`next, h.items`prev
    ensures h.Valid()
    ensures h.order == SortFrom(old(h.order), 1, ByItem(cmp, ItemsOf(h.items)))
    ensures multiset(h.order) == multiset(old(h.order))
    ensures TotalPreorder(h.items, ByItem(cmp, ItemsOf(h.items))) ==>
              StablySorted(h.order, ByItem(cmp, ItemsOf(h.items)), RankIn(old(h.order)))
  {
    hide Hash.Linked, Hash.Bucketed, Hash.Policy, Hash.Keyed, SortFrom, StablySorted, TotalPreorder, RankIn, ByItem,
         ItemsOf;
    ghost var ord := ByItem(cmp, ItemsOf(h.items));
    SortPermutes(h.order, 1, ord);
    if h.head != null {
      SortedStably(h, ord);
      ItemsAgree(h, cmp);
      SortList(h, cmp, ord);
    } else {
      SortNothing(ord, RankIn(h.order));
    }
  }

  lemma ItemsAgree(h: Hash, cmp: (Item, Item) -> int)
    requires h.Linked()
    ensures Agrees(cmp, ByItem(cmp, ItemsOf(h.items)), h.order)
  {}

  function IndexIn(s: seq<Trace>, t: Trace): nat
  {
    if s == [] || s[0] == t then 0 else 1 + IndexIn(s[1..], t)
  }

  /** The rank of an item: its place in the list `s`. */
  function RankIn(s: seq<Trace>): Trace -> int
  {
    (t: Trace) => IndexIn(s, t)
  }

  lemma {:induction false} IndexInAt(s: seq<Trace>, i: nat)
    requires Distinct(s) && i < |s|
    ensures IndexIn(s, s[i]) == i
  {
    if i > 0 {
      assert s[0] != s[i];
      IndexInAt(s[1..], i - 1);
    }
  }

  lemma SortedStably(h: Hash, cmp: (Trace, Trace) -> int)
    requires h.Linked()
    ensures TotalPreorder(h.items, cmp) ==> StablySorted(SortFrom(h.order, 1, cmp), cmp, RankIn(h.order))
  {
    var s := h.order;
    forall i, j | 0 <= i < j < |s|
      ensures RankIn(s)(s[i]) <= RankIn(s)(s[j])
    {
      IndexInAt(s, i);
      IndexInAt(s, j);
    }
    if TotalPreorder(h.items, cmp) {
      SortIsStable<Trace>(s, cmp, RankIn(s), h.items);
    }
  }

  lemma SortNothing(cmp: (Trace, Trace) -> int, rank: Trace -> int)
    ensures SortFrom<Trace>([], 1, cmp) == [] && StablySorted<Trace>([], cmp, rank)
  {}

  method SortList(h: Hash, cmp: (Item, Item) -> int, ghost ord: (Trace, Trace) -> int)
    requires h.head != null && h.Linked() && Agrees(cmp, ord, h.order)
    modifies h`head, h`tail, h`order, h.items`next, h.items`prev
    ensures h.head != null && h.Linked() && |h.order| == |old(h.order)|
    ensures h.order == SortFrom(old(h.order), 1, ord)
  {
    hide MergePass, SortFrom, AppLinks, Distinct, Agrees;
    var insize, looping := 1, true;
    var list := h.head;
    ghost var cur, goal := h.order, SortFrom(h.order, 1, ord);
    while looping
      invariant insize > 0 && Distinct(cur) && Elements(cur) == h.items && |cur| == |old(h.order)| > 0
      invariant AppLinks(cur) && list == cur[0] && Agrees(cmp, ord, cur)
      invariant looping ==> SortFrom(cur, insize, ord) == goal
      invariant !looping ==> cur == goal && h.head == cur[0] && h.tail == cur[|cur| - 1]
      decreases looping, |cur| - insize
    {
      var tail, nmerges;
      ghost var src := cur;
      LinkedNext(src);
      SortStep(src, insize, ord);
      list, tail, nmerges, cur := Pass(list, insize, cmp, ord, src);
      AgreesOnSame(cmp, ord, src, cur);
      if nmerges <= 1 {
        looping := false;
        h.tail := tail;
        h.head := list;
      }
      insize := insize * 2;
    }
    h.order := cur;
  }

  lemma AgreesOnSame(cmp: (Item, Item) -> int, ord: (Trace, Trace) -> int, a: seq<Trace>, b: seq<Trace>)
    requires Agrees(cmp, ord, a) && Elements(a) == Elements(b)
    ensures Agrees(cmp, ord, b)
  {
    forall x | x in b
      ensures x in a
    {
      assert x in Elements(b);
    }
  }

  lemma LinkedNext(src: seq<Trace>)
    requires AppLinks(src)
    ensures NextFrom(src, 0, |src|)
  {}

  lemma SortStep(src: seq<Trace>, n: nat, cmp: (Trace, Trace) -> int)
    requires n > 0
    ensures var r := MergePass(src, n, cmp);
            && |r| == |src| && Elements(r) == Elements(src)
            && SortFrom(src, n, cmp) == if |src| <= 2 * n then r else SortFrom(r, 2 * n, cmp)
  {
    hide MergePass;
    MergePassPermutes(src, n, cmp);
    forall x | x in Elements(src) + Elements(MergePass(src, n, cmp))
      ensures x in MergePass(src, n, cmp) <==> x in src
    {
      PassMembers(src, n, cmp, x);
    }
  }
}
