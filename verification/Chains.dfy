/** The two linked structures an item is in, the bucket chains and the application order, and how the operations of
    uthash change their links. */
module Chains {
  import opened Words
  import opened TraceItem

  /** UT_hash_bucket. */
  datatype Bucket = Bucket(head: Trace?, count: nat, expandMult: nat)

  const EMPTY_BUCKET := Bucket(null, 0, 0)

  /** The item at place `i` of `s`, or null beyond either end: what a link out of `s` holds. */
  function At(s: seq<Trace>, i: int): (t: Trace?)
  {
    if 0 <= i < |s| then s[i] else null
  }

  ghost predicate Distinct<T>(s: seq<T>)
  {
    forall i, j :: 0 <= i < j < |s| ==> s[i] != s[j]
  }

  /** The items of `s` are linked in application order: `prev` mirrors `next`. */
  ghost predicate AppLinks(s: seq<Trace>)
    reads s`next, s`prev
  {
    forall i {:trigger s[i].next} {:trigger s[i].prev} :: 0 <= i < |s| ==>
      s[i].next == At(s, i + 1) && s[i].prev == At(s, i - 1)
  }

  /** The items of `c` are linked as a chain: `hh_prev` mirrors `hh_next`. */
  ghost predicate ChainLinks(c: seq<Trace>)
    reads c`hhNext, c`hhPrev
  {
    forall i {:trigger c[i].hhNext} {:trigger c[i].hhPrev} :: 0 <= i < |c| ==>
      c[i].hhNext == At(c, i + 1) && c[i].hhPrev == At(c, i - 1)
  }

  /** HASH_TO_BKT. */
  function BucketOf(hashv: Word, numBuckets: nat): (b: nat)
    requires numBuckets > 0
    ensures b < numBuckets
  {
    And(hashv, numBuckets - 1)
  }

  /** The bucket of a hash value is its remainder modulo the power-of-two number of buckets. */
  lemma BucketIsRemainder(hashv: Word, k: nat)
    ensures BucketOf(hashv, Pow2(k)) == hashv % Pow2(k)
  {
    MaskIsRemainder(hashv, k);
  }

  /** The chains of `cs` hold the items of `s`, each exactly once, in the bucket its hash value selects. */
  ghost predicate Placed(s: set<Trace>, cs: seq<seq<Trace>>)
    reads s`hashv
  {
    && |cs| > 0
    && (forall t <- s :: t in cs[BucketOf(t.hashv, |cs|)])
    && (forall b, k :: 0 <= b < |cs| && 0 <= k < |cs[b]| ==> cs[b][k] in s && BucketOf(cs[b][k].hashv, |cs|) == b)
    && (forall b :: 0 <= b < |cs| ==> Distinct(cs[b]))
  }

  /** The links of all chains are in place. */
  ghost predicate ChainsLinked(cs: seq<seq<Trace>>, s: set<Trace>)
    requires Placed(s, cs)
    reads s`hashv, s`hhNext, s`hhPrev
  {
    forall b :: 0 <= b < |cs| ==> ChainLinks(cs[b])
  }

  /** The bucket array `bs` describes the chains `cs`. */
  ghost predicate Describes(bs: array<Bucket>, cs: seq<seq<Trace>>)
    reads bs
  {
    && bs.Length == |cs|
    && forall b :: 0 <= b < |cs| ==> bs[b].head == At(cs[b], 0) && bs[b].count == |cs[b]|
  }

  lemma PlacedPush(s: set<Trace>, cs: seq<seq<Trace>>, t: Trace, j: nat)
    requires Placed(s, cs) && t !in s && j < |cs| && BucketOf(t.hashv, |cs|) == j
    ensures Placed(s + {t}, cs[j := [t] + cs[j]])
  {}

  /** Links `t` in front of the chain `c`. */
  method LinkFront(t: Trace, first: Trace?, ghost c: seq<Trace>)
    requires ChainLinks(c) && Distinct(c) && first == At(c, 0) && t !in c
    modifies t`hhNext, t`hhPrev, c`hhPrev
    ensures ChainLinks([t] + c)
  {
    t.hhNext := first;
    t.hhPrev := null;
    if first != null {
      first.hhPrev := t;
    }
    forall i | 0 <= i < |c| + 1
      ensures ([t] + c)[i].hhNext == At([t] + c, i + 1) && ([t] + c)[i].hhPrev == At([t] + c, i - 1)
    {
      if i > 0 {
        assert ([t] + c)[i] == c[i - 1];
      }
    }
  }

  /** Links `t` in front of chain `j` of `cs`, leaving the other chains as they are. */
  method LinkInto(j: nat, t: Trace, first: Trace?, ghost cs: seq<seq<Trace>>, ghost s: set<Trace>)
    requires Placed(s, cs) && ChainsLinked(cs, s)
    requires j < |cs| && t !in s && BucketOf(t.hashv, |cs|) == j && first == At(cs[j], 0)
    modifies t`hhNext, t`hhPrev, s`hhPrev
    ensures Placed(s + {t}, cs[j := [t] + cs[j]]) && ChainsLinked(cs[j := [t] + cs[j]], s + {t})
  {
    LinkFront(t, first, cs[j]);
    PlacedPush(s, cs, t, j);
    forall b | 0 <= b < |cs| && b != j
      ensures ChainLinks(cs[b])
    {
      assert old(ChainLinks(cs[b]));
      forall u <- cs[b] ensures u != t && u !in cs[j] { }
    }
  }

  /** The linking half of HASH_ADD_TO_BKT, which HASH_EXPAND_BUCKETS repeats: chains `t` into bucket `j`. */
  method PushFront(bs: array<Bucket>, j: nat, t: Trace, mult: nat, ghost cs: seq<seq<Trace>>, ghost s: set<Trace>)
    requires Placed(s, cs) && ChainsLinked(cs, s) && Describes(bs, cs)
    requires j < |cs| && t !in s && BucketOf(t.hashv, |cs|) == j
    modifies bs, t`hhNext, t`hhPrev, s`hhPrev
    ensures Placed(s + {t}, cs[j := [t] + cs[j]]) && ChainsLinked(cs[j := [t] + cs[j]], s + {t})
    ensures Describes(bs, cs[j := [t] + cs[j]])
    ensures bs[..] == old(bs[..])[j := bs[j]] && bs[j].expandMult == mult
  {
    LinkInto(j, t, bs[j].head, cs, s);
    bs[j] := Bucket(t, bs[j].count + 1, mult);
  }

  /** Where a doubled table of `2 * n` buckets takes the items of bucket `j` from. */
  function Source(j: nat, n: nat): (i: nat)
    requires n > 0 && j < 2 * n
    ensures i < n && (j == i || j == i + n)
  {
    if j < n then j else j - n
  }

  /** Doubling the table sends bucket `i` to buckets `i` and `i + n` only. */
  lemma DoubledBucket(hashv: Word, k: nat)
    ensures Pow2(k + 1) == 2 * Pow2(k)
    ensures Source(BucketOf(hashv, 2 * Pow2(k)), Pow2(k)) == BucketOf(hashv, Pow2(k))
  {
    MaskIsRemainder(hashv, k);
    MaskIsRemainder(hashv, k + 1);
    HalvedRemainder(hashv, Pow2(k));
  }

  lemma HalvedRemainder(h: nat, n: nat)
    requires n > 0
    ensures 0 <= h % (2 * n) < 2 * n
    ensures h % n == if h % (2 * n) < n then h % (2 * n) else h % (2 * n) - n
  {
    var q, r := h / (2 * n), h % (2 * n);
    if r < n {
      assert h == (2 * q) * n + r;
      RemainderUnique(h, n, 2 * q, r);
    } else {
      assert h == (2 * q + 1) * n + (r - n);
      RemainderUnique(h, n, 2 * q + 1, r - n);
    }
  }

  /** The items of chain `c` that belong in bucket `j` of `n`, in the order expansion leaves them. */
  ghost function Moved(c: seq<Trace>, j: nat, n: nat, hashes: map<Trace, Word>): (r: seq<Trace>)
    requires n > 0
  {
    if c == [] then []
    else
      var rest := Moved(c[..|c| - 1], j, n, hashes);
      var t := c[|c| - 1];
      if t in hashes && BucketOf(hashes[t], n) == j then [t] + rest else rest
  }

  /** `cs'` is what redistributing the chains `cs` over twice as many buckets leaves. */
  ghost predicate Redistributed(cs: seq<seq<Trace>>, cs': seq<seq<Trace>>, hashes: map<Trace, Word>)
  {
    && |cs'| == 2 * |cs|
    && forall j :: 0 <= j < |cs'| ==> cs'[j] == Moved(cs[Source(j, |cs|)], j, |cs'|, hashes)
  }

  function Quotient(a: nat, b: nat): nat
    requires b > 0
  {
    a / b
  }

  /** The `expand_mult` an expansion leaves in a bucket of `count` items. */
  function ExpandMult(count: nat, ideal: nat): nat
    requires ideal > 0
  {
    if count > ideal then Quotient(count, ideal) else 0
  }

  /** The items beyond the ideal chain length, over all chains. */
  function NonIdeal(cs: seq<seq<Trace>>, ideal: nat): nat
  {
    if cs == [] then 0
    else NonIdeal(cs[..|cs| - 1], ideal) + (if |cs[|cs| - 1]| > ideal then |cs[|cs| - 1]| - ideal else 0)
  }

  lemma {:induction false} NonIdealUpdate(cs: seq<seq<Trace>>, ideal: nat, j: nat, c: seq<Trace>)
    requires j < |cs| && |c| == |cs[j]| + 1
    ensures NonIdeal(cs[j := c], ideal) == NonIdeal(cs, ideal) + (if |c| > ideal then 1 else 0)
  {
    var n := |cs| - 1;
    if j == n {
      assert cs[j := c][..n] == cs[..n];
    } else {
      assert cs[j := c][..n] == cs[..n][j := c];
      NonIdealUpdate(cs[..n], ideal, j, c);
    }
  }

  /** The items within the ideal chain length, over all chains. */
  function WithinIdeal(cs: seq<seq<Trace>>, ideal: nat): nat
  {
    if cs == [] then 0
    else WithinIdeal(cs[..|cs| - 1], ideal) + (if |cs[|cs| - 1]| < ideal then |cs[|cs| - 1]| else ideal)
  }

  /** Every item is either within the ideal chain length or counted as non-ideal, and none is when no chain is
      longer. */
  lemma {:induction false} NonIdealIsRest(cs: seq<seq<Trace>>, ideal: nat)
    ensures NonIdeal(cs, ideal) + WithinIdeal(cs, ideal) == SumLen(cs)
    ensures NonIdeal(cs, ideal) == 0 <==> forall b :: 0 <= b < |cs| ==> |cs[b]| <= ideal
  {
    if cs != [] {
      var n := |cs| - 1;
      NonIdealIsRest(cs[..n], ideal);
      SumLenEndsWith(cs);
      assert forall b :: 0 <= b < n ==> cs[..n][b] == cs[b];
    }
  }

  lemma {:induction false} SumLenEndsWith(cs: seq<seq<Trace>>)
    requires cs != []
    ensures SumLen(cs) == SumLen(cs[..|cs| - 1]) + |cs[|cs| - 1]|
  {
    var n := |cs| - 1;
    if n == 0 {
      assert cs[1..] == [] && cs[..0] == [];
    } else {
      SumLenEndsWith(cs[1..]);
      assert cs[1..][..n - 1] == cs[..n][1..];
    }
  }

  ghost predicate MultsSet(bs: array<Bucket>, ideal: nat)
    requires ideal > 0
    reads bs
  {
    forall b :: 0 <= b < bs.Length ==> bs[b].expandMult == ExpandMult(bs[b].count, ideal)
  }

  /** The multiplier of a bucket is how many whole ideal chains its items fill, and 0 when they fill at most one. */
  predicate Shares(b: Bucket, ideal: nat)
  {
    if b.count <= ideal then b.expandMult == 0
    else b.expandMult * ideal <= b.count < (b.expandMult + 1) * ideal
  }

  lemma MultShares(b: Bucket, ideal: nat)
    requires ideal > 0 && b.expandMult == ExpandMult(b.count, ideal)
    ensures Shares(b, ideal)
  {
    if b.count > ideal {
      assert b.count == b.expandMult * ideal + b.count % ideal;
    }
  }

  lemma MultsShare(bs: array<Bucket>, ideal: nat)
    requires ideal > 0 && MultsSet(bs, ideal)
    ensures forall b :: 0 <= b < bs.Length ==> Shares(bs[b], ideal)
  {
    hide ExpandMult, Shares;
    forall b | 0 <= b < bs.Length
      ensures Shares(bs[b], ideal)
    {
      MultShares(bs[b], ideal);
    }
  }

  /** The body of the inner loop of HASH_EXPAND_BUCKETS. */
  method MoveItem(bs: array<Bucket>, t: Trace, ideal: nat, ghost cs: seq<seq<Trace>>, ghost s: set<Trace>)
    returns (nonideal: bool, ghost j: nat)
    requires ideal > 0
    requires Placed(s, cs) && ChainsLinked(cs, s) && Describes(bs, cs) && MultsSet(bs, ideal)
    requires t !in s
    modifies bs, t`hhNext, t`hhPrev, s`hhPrev
    ensures j == BucketOf(t.hashv, |cs|) < |cs|
    ensures Placed(s + {t}, cs[j := [t] + cs[j]]) && ChainsLinked(cs[j := [t] + cs[j]], s + {t})
    ensures Describes(bs, cs[j := [t] + cs[j]]) && MultsSet(bs, ideal)
    ensures nonideal <==> |cs[j]| + 1 > ideal
    ensures Shares(bs[j], ideal)
  {
    hide ChainsLinked, Shares;
    var bkt := BucketOf(t.hashv, bs.Length);
    j := bkt;
    var count := bs[bkt].count + 1;
    nonideal := count > ideal;
    var mult := if nonideal then Quotient(count, ideal) else bs[bkt].expandMult;
    PushFront(bs, bkt, t, mult, cs, s);
    MultShares(bs[bkt], ideal);
  }

  /** The `hh_next` links of `c` from place `k` on, which is what expansion still reads of an old chain. */
  ghost predicate NextLinks(c: seq<Trace>, k: nat)
    reads c`hhNext
  {
    forall m {:trigger c[m].hhNext} :: k <= m < |c| ==> c[m].hhNext == At(c, m + 1)
  }

  ghost function Elements(c: seq<Trace>): set<Trace> { set t | t in c }

  /** The inner loop of HASH_EXPAND_BUCKETS: moves every item of the chain `c` to its new bucket. */
  method MoveChain(bs: array<Bucket>, first: Trace?, ideal: nat, ghost c: seq<Trace>, ghost cs: seq<seq<Trace>>,
                   ghost s: set<Trace>, ghost hashes: map<Trace, Word>)
    returns (nonideal: nat, ghost cs': seq<seq<Trace>>)
    requires ideal > 0 && |cs| > 0
    requires Placed(s, cs) && ChainsLinked(cs, s) && Describes(bs, cs) && MultsSet(bs, ideal)
    requires first == At(c, 0) && NextLinks(c, 0) && Distinct(c) && forall t <- c :: t !in s
    requires forall t <- c :: t in hashes && hashes[t] == t.hashv
    modifies bs, c`hhNext, c`hhPrev, s`hhPrev
    ensures |cs'| == |cs| && forall j :: 0 <= j < |cs| ==> cs'[j] == Moved(c, j, |cs|, hashes) + cs[j]
    ensures Placed(s + Elements(c), cs') && ChainsLinked(cs', s + Elements(c))
    ensures Describes(bs, cs') && MultsSet(bs, ideal)
    ensures NonIdeal(cs', ideal) == NonIdeal(cs, ideal) + nonideal
  {
    hide Placed, ChainsLinked, Describes, MultsSet, Moved, BucketOf, NonIdeal;
    var thh := first;
    ghost var k, done := 0, s;
    nonideal, cs' := 0, cs;
    MovedNothing(c, cs, hashes);
    assert done == s + Elements(c[..k]);
    while thh != null
      invariant 0 <= k <= |c| && thh == At(c, k) && NextLinks(c, k)
      invariant done == s + Elements(c[..k])
      invariant |cs'| == |cs| && forall j :: 0 <= j < |cs| ==> cs'[j] == Moved(c[..k], j, |cs|, hashes) + cs[j]
      invariant Placed(done, cs') && ChainsLinked(cs', done)
      invariant Describes(bs, cs') && MultsSet(bs, ideal)
      invariant NonIdeal(cs', ideal) == NonIdeal(cs, ideal) + nonideal
      decreases |c| - k
    {
      var t: Trace := thh;
      var hhNxt := t.hhNext;
      ghost var before := cs';
      assert t !in done;
      var beyond, j := MoveItem(bs, t, ideal, before, done);
      cs' := before[j := [t] + before[j]];
      NonIdealUpdate(before, ideal, j, [t] + before[j]);
      MovedStep(c, k, before, cs', cs, j, hashes);
      nonideal := nonideal + (if beyond then 1 else 0);
      done := done + {t};
      k := k + 1;
      thh := hhNxt;
    }
    assert c[..k] == c;
  }

  lemma MovedNothing(c: seq<Trace>, cs: seq<seq<Trace>>, hashes: map<Trace, Word>)
    requires |cs| > 0
    ensures Elements(c[..0]) == {}
    ensures forall b :: 0 <= b < |cs| ==> cs[b] == Moved(c[..0], b, |cs|, hashes) + cs[b]
  {}

  lemma MovedStep(c: seq<Trace>, k: nat, before: seq<seq<Trace>>, after: seq<seq<Trace>>, cs: seq<seq<Trace>>, j: nat,
                  hashes: map<Trace, Word>)
    requires k < |c| && |before| == |cs| > 0 && c[k] in hashes && j == BucketOf(hashes[c[k]], |cs|)
    requires forall b :: 0 <= b < |cs| ==> before[b] == Moved(c[..k], b, |cs|, hashes) + cs[b]
    requires after == before[j := [c[k]] + before[j]]
    ensures Elements(c[..k + 1]) == Elements(c[..k]) + {c[k]}
    ensures forall b :: 0 <= b < |cs| ==> after[b] == Moved(c[..k + 1], b, |cs|, hashes) + cs[b]
  {
    assert c[..k + 1][..k] == c[..k];
  }

  function SumLen(cs: seq<seq<Trace>>): nat
  {
    if cs == [] then 0 else |cs[0]| + SumLen(cs[1..])
  }

  ghost function Union(cs: seq<seq<Trace>>): set<Trace>
  {
    if cs == [] then {} else Elements(cs[0]) + Union(cs[1..])
  }

  lemma {:induction false} UnionMembers(cs: seq<seq<Trace>>, t: Trace)
    ensures t in Union(cs) <==> exists b :: 0 <= b < |cs| && t in cs[b]
  {
    if cs != [] {
      UnionMembers(cs[1..], t);
      if t in Union(cs[1..]) {
        var b :| 0 <= b < |cs[1..]| && t in cs[1..][b];
        assert t in cs[b + 1];
      }
      if b :| 0 <= b < |cs| && t in cs[b] && b > 0 {
        assert t in cs[1..][b - 1];
      }
    }
  }

  lemma {:induction false} CountElements(c: seq<Trace>)
    requires Distinct(c)
    ensures |Elements(c)| == |c|
  {
    if c != [] {
      var n := |c| - 1;
      CountElements(c[..n]);
      assert Elements(c) == Elements(c[..n]) + {c[n]};
      assert c[n] !in c[..n];
    }
  }

  lemma {:induction false} CountUnion(cs: seq<seq<Trace>>)
    requires forall b :: 0 <= b < |cs| ==> Distinct(cs[b])
    requires forall b, b' :: 0 <= b < b' < |cs| ==> Elements(cs[b]) !! Elements(cs[b'])
    ensures |Union(cs)| == SumLen(cs)
  {
    if cs != [] {
      CountElements(cs[0]);
      CountUnion(cs[1..]);
      forall t <- Elements(cs[0])
        ensures t !in Union(cs[1..])
      {
        UnionMembers(cs[1..], t);
        forall b | 0 <= b < |cs[1..]|
          ensures t !in cs[1..][b]
        {
          assert Elements(cs[0]) !! Elements(cs[b + 1]);
        }
      }
    }
  }

  /** Conservation: the chain lengths add up to the number of items. */
  lemma ChainLengthsAddUp(s: set<Trace>, cs: seq<seq<Trace>>)
    requires Placed(s, cs)
    ensures SumLen(cs) == |s|
  {
    forall b, b' | 0 <= b < b' < |cs|
      ensures Elements(cs[b]) !! Elements(cs[b'])
    {
      forall t <- cs[b] ensures t !in cs[b'] {
        assert BucketOf(t.hashv, |cs|) == b;
      }
    }
    CountUnion(cs);
    forall t <- Union(cs)
      ensures t in s
    {
      UnionMembers(cs, t);
    }
    forall t <- s
      ensures t in Union(cs)
    {
      UnionMembers(cs, t);
    }
    assert Union(cs) == s;
  }

  /** `c` with the first occurrence of `t` taken out. */
  function Without(c: seq<Trace>, t: Trace): (r: seq<Trace>)
  {
    if c == [] then [] else if c[0] == t then c[1..] else [c[0]] + Without(c[1..], t)
  }

  lemma {:induction false} WithoutAt(c: seq<Trace>, i: nat)
    requires i < |c| && Distinct(c)
    ensures Without(c, c[i]) == c[..i] + c[i + 1..]
  {
    if i == 0 {
    } else {
      assert c[0] != c[i];
      WithoutAt(c[1..], i - 1);
      assert [c[0]] + (c[1..][..i - 1] + c[1..][i..]) == c[..i] + c[i + 1..];
    }
  }

  lemma WithoutKeeps(c: seq<Trace>, t: Trace)
    requires Distinct(c) && t in c
    ensures Distinct(Without(c, t)) && |Without(c, t)| == |c| - 1
    ensures forall u <- c :: u != t ==> u in Without(c, t)
    ensures forall u <- Without(c, t) :: u in c && u != t
  {
    var i :| 0 <= i < |c| && c[i] == t;
    WithoutAt(c, i);
    var r := c[..i] + c[i + 1..];
    forall u | u in c && u != t
      ensures u in r
    {
      var k :| 0 <= k < |c| && c[k] == u;
      assert r[if k < i then k else k - 1] == u;
    }
  }

  lemma PlacedDelete(s: set<Trace>, cs: seq<seq<Trace>>, t: Trace, j: nat)
    requires Placed(s, cs) && t in s && j == BucketOf(t.hashv, |cs|)
    ensures Placed(s - {t}, cs[j := Without(cs[j], t)])
  {
    var cs' := cs[j := Without(cs[j], t)];
    assert Distinct(cs[j]);
    WithoutKeeps(cs[j], t);
    hide Without;
    forall b, k | 0 <= b < |cs| && 0 <= k < |cs'[b]|
      ensures cs'[b][k] in s - {t} && BucketOf(cs'[b][k].hashv, |cs|) == b
    {
      var u := cs'[b][k];
      if b == j {
        assert u in Without(cs[j], t);
      } else {
        assert u == cs[b][k];
      }
      assert u in cs[b];
      assert u in s && BucketOf(u.hashv, |cs|) == b;
    }
  }

  lemma CutAt(c: seq<Trace>, i: nat, k: int)
    requires i < |c| && Distinct(c)
    ensures |Without(c, c[i])| == |c| - 1
    ensures At(Without(c, c[i]), k) == if k < i then At(c, k) else At(c, k + 1)
  {
    WithoutAt(c, i);
    hide Without;
    assert |c[..i] + c[i + 1..]| == |c| - 1;
  }

  /** The link updates of HASH_DEL_IN_BKT around `c[i]`. */
  method LinkOut(t: Trace, ghost c: seq<Trace>, ghost i: nat)
    requires ChainLinks(c) && Distinct(c) && i < |c| && c[i] == t
    modifies c`hhNext, c`hhPrev
    ensures forall k {:trigger c[k].hhNext} {:trigger c[k].hhPrev} :: 0 <= k < |c| ==>
              && c[k].hhNext == (if k == i - 1 then At(c, i + 1) else At(c, k + 1))
              && c[k].hhPrev == (if k == i + 1 then At(c, i - 1) else At(c, k - 1))
  {
    if t.hhPrev != null {
      t.hhPrev.hhNext := t.hhNext;
    }
    if t.hhNext != null {
      t.hhNext.hhPrev := t.hhPrev;
    }
  }

  lemma LinkedAround(c: seq<Trace>, i: nat)
    requires Distinct(c) && i < |c|
    requires forall k {:trigger c[k].hhNext} {:trigger c[k].hhPrev} :: 0 <= k < |c| ==>
               && c[k].hhNext == (if k == i - 1 then At(c, i + 1) else At(c, k + 1))
               && c[k].hhPrev == (if k == i + 1 then At(c, i - 1) else At(c, k - 1))
    ensures ChainLinks(Without(c, c[i]))
  {
    hide Without, Distinct;
    var r := Without(c, c[i]);
    CutAt(c, i, 0);
    forall k | 0 <= k < |r|
      ensures r[k].hhNext == At(r, k + 1) && r[k].hhPrev == At(r, k - 1)
    {
      CutAt(c, i, k);
      CutAt(c, i, k + 1);
      CutAt(c, i, k - 1);
    }
  }

  /** Takes `t` out of chain `j` of `cs`, leaving the other chains as they are. */
  method LinkOutOf(j: nat, t: Trace, ghost cs: seq<seq<Trace>>, ghost s: set<Trace>)
    requires Placed(s, cs) && ChainsLinked(cs, s)
    requires t in s && j == BucketOf(t.hashv, |cs|)
    modifies s`hhNext, s`hhPrev
    ensures Placed(s - {t}, cs[j := Without(cs[j], t)]) && ChainsLinked(cs[j := Without(cs[j], t)], s - {t})
    ensures t.hhNext == old(t.hhNext)
  {
    hide Without;
    ghost var c := cs[j];
    assert Distinct(c) && ChainLinks(c) && t in c;
    ghost var i :| 0 <= i < |c| && c[i] == t;
    LinkOut(t, c, i);
    LinkedAround(c, i);
    PlacedDelete(s, cs, t, j);
    forall b | 0 <= b < |cs| && b != j
      ensures ChainLinks(cs[b])
    {
      assert old(ChainLinks(cs[b]));
      forall u <- cs[b] ensures u !in c { }
    }
  }

  /** HASH_DEL_IN_BKT. */
  method DelInBkt(bs: array<Bucket>, j: nat, t: Trace, ghost cs: seq<seq<Trace>>, ghost s: set<Trace>)
    requires Placed(s, cs) && ChainsLinked(cs, s) && Describes(bs, cs)
    requires t in s && j == BucketOf(t.hashv, |cs|)
    modifies bs, s`hhNext, s`hhPrev
    ensures Placed(s - {t}, cs[j := Without(cs[j], t)]) && ChainsLinked(cs[j := Without(cs[j], t)], s - {t})
    ensures Describes(bs, cs[j := Without(cs[j], t)])
    ensures j < bs.Length && bs[..] == old(bs[..])[j := bs[j]]
    ensures bs[j].count < old(bs[j].count) && bs[j].expandMult == old(bs[j].expandMult)
  {
    hide Without, ChainsLinked;
    DeletedFront(t, cs, s, j);
    var first := if bs[j].head == t then t.hhNext else bs[j].head;
    bs[j] := Bucket(first, bs[j].count - 1, bs[j].expandMult);
    LinkOutOf(j, t, cs, s);
  }

  lemma DeletedFront(t: Trace, cs: seq<seq<Trace>>, s: set<Trace>, j: nat)
    requires Placed(s, cs) && ChainsLinked(cs, s)
    requires t in s && j == BucketOf(t.hashv, |cs|)
    ensures |cs[j]| > 0 && |Without(cs[j], t)| == |cs[j]| - 1
    ensures At(Without(cs[j], t), 0) == if At(cs[j], 0) == t then t.hhNext else At(cs[j], 0)
  {
    hide Without;
    var c := cs[j];
    assert Distinct(c) && ChainLinks(c) && t in c;
    var i :| 0 <= i < |c| && c[i] == t;
    CutAt(c, i, 0);
    assert t.hhNext == At(c, i + 1);
  }

  /** The application-order links around `s[i]` after HASH_DELETE's patch-up. */
  method AppLinkOut(t: Trace, ghost s: seq<Trace>, ghost i: nat)
    requires AppLinks(s) && Distinct(s) && i < |s| && s[i] == t
    modifies s`next, s`prev
    ensures forall k {:trigger s[k].next} {:trigger s[k].prev} :: 0 <= k < |s| ==>
              && s[k].next == (if k == i - 1 then At(s, i + 1) else At(s, k + 1))
              && s[k].prev == (if k == i + 1 then At(s, i - 1) else At(s, k - 1))
  {
    if t.prev != null {
      t.prev.next := t.next;
    }
    if t.next != null {
      t.next.prev := t.prev;
    }
  }

  lemma AppLinkedAround(s: seq<Trace>, i: nat)
    requires Distinct(s) && i < |s|
    requires forall k {:trigger s[k].next} {:trigger s[k].prev} :: 0 <= k < |s| ==>
               && s[k].next == (if k == i - 1 then At(s, i + 1) else At(s, k + 1))
               && s[k].prev == (if k == i + 1 then At(s, i - 1) else At(s, k - 1))
    ensures AppLinks(Without(s, s[i]))
  {
    hide Without, Distinct;
    var r := Without(s, s[i]);
    CutAt(s, i, 0);
    forall k | 0 <= k < |r|
      ensures r[k].next == At(r, k + 1) && r[k].prev == At(r, k - 1)
    {
      CutAt(s, i, k);
      CutAt(s, i, k + 1);
      CutAt(s, i, k - 1);
    }
  }
}
