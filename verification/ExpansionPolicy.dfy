/** The arithmetic behind adaptive bucket expansion, apart from the links. */
module ExpansionPolicy {
  import opened Words
  import opened Chains

  const BKT_CAPACITY_THRESH := 10

  /** The chain bound: `count` stays within the capacity `expandMult` grants. */
  predicate WithinCapacity(b: Bucket)
  {
    && b.count <= BKT_CAPACITY_THRESH * (b.expandMult + 1)
    && (b.expandMult > 0 ==> b.count < BKT_CAPACITY_THRESH * (b.expandMult + 1))
  }

  function SumMult(bs: seq<Bucket>): nat
  {
    if bs == [] then 0 else bs[0].expandMult + SumMult(bs[1..])
  }

  function SumCount(bs: seq<Bucket>): nat
  {
    if bs == [] then 0 else bs[0].count + SumCount(bs[1..])
  }

  /** What the policy keeps while expansion is not inhibited. */
  ghost predicate Bounded(bs: seq<Bucket>)
  {
    && (forall b :: 0 <= b < |bs| ==> WithinCapacity(bs[b]))
    && SumMult(bs) <= |bs|
  }

  /** A bounded table holds fewer than twenty items a bucket. */
  lemma {:induction false} BoundedHoldsFewItems(bs: seq<Bucket>)
    requires forall b :: 0 <= b < |bs| ==> WithinCapacity(bs[b])
    ensures SumCount(bs) <= 10 * |bs| + 10 * SumMult(bs)
    ensures SumMult(bs) > 0 ==> SumCount(bs) < 10 * |bs| + 10 * SumMult(bs)
  {
    if bs != [] {
      assert WithinCapacity(bs[0]);
      BoundedHoldsFewItems(bs[1..]);
    }
  }

  /** Giving one bucket another item, or taking one away, changes the item count by one and no multiplier. */
  lemma {:induction false} RecountBucket(bs: seq<Bucket>, j: nat, b: Bucket)
    requires j < |bs| && b.expandMult == bs[j].expandMult
    ensures SumMult(bs[j := b]) == SumMult(bs)
    ensures SumCount(bs[j := b]) == SumCount(bs) - bs[j].count + b.count
  {
    if j == 0 {
      assert bs[j := b][1..] == bs[1..];
    } else {
      assert bs[j := b][1..] == bs[1..][j - 1 := b];
      RecountBucket(bs[1..], j - 1, b);
    }
  }

  /** One item more than a bounded table holds is still at most twenty a bucket. */
  lemma GrownHoldsFewItems(bs: seq<Bucket>, j: nat, b: Bucket)
    requires Bounded(bs) && j < |bs| && b.expandMult == bs[j].expandMult && b.count == bs[j].count + 1
    ensures SumCount(bs[j := b]) <= 20 * |bs|
  {
    BoundedHoldsFewItems(bs);
    RecountBucket(bs, j, b);
  }

  /** A bucket that may still grow, or that shrinks, keeps the table bounded. */
  lemma StaysBounded(bs: seq<Bucket>, j: nat, b: Bucket)
    requires Bounded(bs) && j < |bs| && b.expandMult == bs[j].expandMult
    requires b.count < bs[j].count || b.count < (b.expandMult + 1) * BKT_CAPACITY_THRESH
    ensures Bounded(bs[j := b])
  {
    RecountBucket(bs, j, b);
    assert WithinCapacity(bs[j]);
  }

  /** The multipliers an expansion hands out keep every bucket within capacity. */
  lemma MultGivesCapacity(count: nat, ideal: nat)
    requires 0 < ideal <= 10
    ensures WithinCapacity(Bucket(null, count, ExpandMult(count, ideal)))
    ensures ExpandMult(count, ideal) * ideal <= count
  {}

  lemma {:induction false} MultsSum(bs: seq<Bucket>, ideal: nat)
    requires 0 < ideal <= 10
    requires forall b :: 0 <= b < |bs| ==> bs[b].expandMult == ExpandMult(bs[b].count, ideal)
    ensures SumMult(bs) * ideal <= SumCount(bs)
  {
    if bs != [] {
      MultGivesCapacity(bs[0].count, ideal);
      MultsSum(bs[1..], ideal);
      Distribute(bs[0].expandMult, SumMult(bs[1..]), ideal);
    }
  }

  /** `ideal_chain_maxlen` as HASH_EXPAND_BUCKETS computes it from the old `numBuckets`. */
  function IdealChainMaxlen(numItems: nat, numBuckets: nat, log2NumBuckets: nat): nat
    requires numBuckets > 0
  {
    Shr(numItems, log2NumBuckets + 1) + (if And(numItems, numBuckets * 2 - 1) != 0 then 1 else 0)
  }

  /** `c` is `a / b` rounded up. */
  ghost predicate IsCeiling(c: nat, a: nat, b: nat)
  {
    (c - 1) * b < a <= c * b
  }

  /** ... is the number of items over the new number of buckets, rounded up. */
  lemma IdealIsCeiling(numItems: nat, k: nat)
    ensures Pow2(k + 1) == 2 * Pow2(k)
    ensures IsCeiling(IdealChainMaxlen(numItems, Pow2(k), k), numItems, Pow2(k + 1))
  {
    hide Shr, And, IsCeiling;
    ShiftIsQuotient(numItems, k + 1);
    MaskIsRemainder(numItems, k + 1);
    RoundsUp(numItems, Pow2(k + 1));
  }

  lemma RoundsUp(a: nat, n: nat)
    requires n > 0
    ensures IsCeiling(a / n + (if a % n != 0 then 1 else 0), a, n)
  {}

  lemma IdealIsSmall(numItems: nat, k: nat)
    requires 0 < numItems <= 20 * Pow2(k)
    ensures 0 < IdealChainMaxlen(numItems, Pow2(k), k) <= 10
  {
    IdealIsCeiling(numItems, k);
    var ideal, n := IdealChainMaxlen(numItems, Pow2(k), k), Pow2(k + 1);
    if ideal > 10 {
      MulMonotone(10, ideal - 1, n);
    }
  }

  lemma Distribute(a: nat, b: nat, c: nat)
    ensures (a + b) * c == a * c + b * c
  {}

  lemma MulMonotone(a: nat, b: nat, c: nat)
    requires a <= b
    ensures a * c <= b * c
  {}

  /** An expansion that starts with at most twenty items a bucket ends in a bounded table. */
  lemma ExpansionBounds(bs: seq<Bucket>, numItems: nat, k: nat)
    requires |bs| == Pow2(k + 1) && SumCount(bs) == numItems && 0 < numItems <= 20 * Pow2(k)
    requires var ideal := IdealChainMaxlen(numItems, Pow2(k), k);
             ideal > 0 ==> forall b :: 0 <= b < |bs| ==> bs[b].expandMult == ExpandMult(bs[b].count, ideal)
    ensures Bounded(bs)
  {
    IdealIsSmall(numItems, k);
    IdealIsCeiling(numItems, k);
    var ideal := IdealChainMaxlen(numItems, Pow2(k), k);
    MultsSum(bs, ideal);
    Cancel(SumMult(bs), |bs|, ideal);
    forall b | 0 <= b < |bs|
      ensures WithinCapacity(bs[b])
    {
      MultGivesCapacity(bs[b].count, ideal);
    }
  }

  lemma Cancel(a: nat, b: nat, c: nat)
    requires c > 0 && a * c <= c * b
    ensures a <= b
  {}
}
