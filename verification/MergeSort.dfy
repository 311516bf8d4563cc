/** The bottom-up merge sort of HASH_SRT on sequences, and what makes it a stable sort. */
module MergeSort {

  function Min(a: nat, b: nat): nat { if a < b then a else b }

  /** Merges two runs; on a tie (`cmp <= 0`) the left run goes first. */
  function Merge<T>(a: seq<T>, b: seq<T>, cmp: (T, T) -> int): (r: seq<T>)
  {
    if a == [] then b
    else if b == [] then a
    else if cmp(a[0], b[0]) <= 0 then [a[0]] + Merge(a[1..], b, cmp)
    else [b[0]] + Merge(a, b[1..], cmp)
  }

  /** One pass: merges neighbouring runs of `n`. */
  function MergePass<T>(s: seq<T>, n: nat, cmp: (T, T) -> int): (r: seq<T>)
    requires n > 0
  {
    if s == [] then []
    else
      var m, e := Min(n, |s|), Min(2 * n, |s|);
      Merge(s[..m], s[m..e], cmp) + MergePass(s[e..], n, cmp)
  }

  /** Passes of doubling run length, the last one being the one that merges at most one pair. */
  function SortFrom<T>(s: seq<T>, n: nat, cmp: (T, T) -> int): (r: seq<T>)
    requires n > 0
    decreases |s| - n
  {
    var r := MergePass(s, n, cmp);
    if |s| <= 2 * n then r else MergePassPermutes(s, n, cmp); SortFrom(r, 2 * n, cmp)
  }

  lemma {:induction false} MergePermutes<T>(a: seq<T>, b: seq<T>, cmp: (T, T) -> int)
    ensures multiset(Merge(a, b, cmp)) == multiset(a) + multiset(b)
    ensures |Merge(a, b, cmp)| == |a| + |b|
  {
    if a != [] && b != [] {
      if cmp(a[0], b[0]) <= 0 {
        MergePermutes(a[1..], b, cmp);
        assert a == [a[0]] + a[1..];
      } else {
        MergePermutes(a, b[1..], cmp);
        assert b == [b[0]] + b[1..];
      }
    }
  }

  lemma {:induction false} MergePassPermutes<T>(s: seq<T>, n: nat, cmp: (T, T) -> int)
    requires n > 0
    ensures multiset(MergePass(s, n, cmp)) == multiset(s)
    ensures |MergePass(s, n, cmp)| == |s|
  {
    hide Merge;
    if s != [] {
      var m, e := Min(n, |s|), Min(2 * n, |s|);
      var a, b, c := s[..m], s[m..e], s[e..];
      MergePermutes(a, b, cmp);
      MergePassPermutes(c, n, cmp);
      assert s == a + b + c;
    }
  }

  lemma {:induction false} SortPermutes<T>(s: seq<T>, n: nat, cmp: (T, T) -> int)
    requires n > 0
    ensures multiset(SortFrom(s, n, cmp)) == multiset(s)
    decreases |s| - n
  {
    MergePassPermutes(s, n, cmp);
    if |s| > 2 * n {
      SortPermutes(MergePass(s, n, cmp), 2 * n, cmp);
    }
  }

  /** `cmp <= 0` is a total preorder on the elements of `d`. */
  ghost predicate TotalPreorder<T>(d: set<T>, cmp: (T, T) -> int)
  {
    && (forall x, y :: x in d && y in d ==> cmp(x, y) <= 0 || cmp(y, x) <= 0)
    && (forall x, y, z :: x in d && y in d && z in d && cmp(x, y) <= 0 && cmp(y, z) <= 0 ==> cmp(x, z) <= 0)
  }

  /** `x` may stand before `y`: it compares lower, or equal and it came first. */
  predicate Before<T>(x: T, y: T, cmp: (T, T) -> int, rank: T -> int)
  {
    cmp(x, y) <= 0 && (cmp(y, x) <= 0 ==> rank(x) <= rank(y))
  }

  ghost predicate StablySorted<T>(s: seq<T>, cmp: (T, T) -> int, rank: T -> int)
  {
    forall i, j :: 0 <= i < j < |s| ==> Before(s[i], s[j], cmp, rank)
  }

  ghost predicate RanksBelow<T>(a: seq<T>, b: seq<T>, rank: T -> int)
  {
    forall x, y :: x in a && y in b ==> rank(x) <= rank(y)
  }

  ghost predicate Within<T>(s: seq<T>, d: set<T>)
  {
    forall x :: x in s ==> x in d
  }

  lemma MergeMembers<T>(a: seq<T>, b: seq<T>, cmp: (T, T) -> int, x: T)
    ensures x in Merge(a, b, cmp) <==> x in a || x in b
  {}

  lemma {:induction false} MergeStable<T>(a: seq<T>, b: seq<T>, cmp: (T, T) -> int, rank: T -> int, d: set<T>)
    requires TotalPreorder(d, cmp) && Within(a, d) && Within(b, d)
    requires StablySorted(a, cmp, rank) && StablySorted(b, cmp, rank) && RanksBelow(a, b, rank)
    ensures StablySorted(Merge(a, b, cmp), cmp, rank)
  {
    if a != [] && b != [] {
      var left := cmp(a[0], b[0]) <= 0;
      var x := if left then a[0] else b[0];
      var a', b' := if left then a[1..] else a, if left then b else b[1..];
      MergeStable(a', b', cmp, rank, d);
      var rest := Merge(a', b', cmp);
      forall j | 0 <= j < |rest|
        ensures Before(x, rest[j], cmp, rank)
      {
        MergeMembers(a', b', cmp, rest[j]);
        FirstIsBefore(a, b, cmp, rank, d, rest[j]);
      }
      assert Merge(a, b, cmp) == [x] + rest;
    }
  }

  lemma FirstIsBefore<T>(a: seq<T>, b: seq<T>, cmp: (T, T) -> int, rank: T -> int, d: set<T>, y: T)
    requires TotalPreorder(d, cmp) && Within(a, d) && Within(b, d)
    requires StablySorted(a, cmp, rank) && StablySorted(b, cmp, rank) && RanksBelow(a, b, rank)
    requires a != [] && b != []
    requires if cmp(a[0], b[0]) <= 0 then y in a[1..] || y in b else y in a || y in b[1..]
    ensures Before(if cmp(a[0], b[0]) <= 0 then a[0] else b[0], y, cmp, rank)
  {}

  /** Every run of `n` is stably sorted, and earlier runs hold earlier elements. */
  ghost predicate RunsSorted<T>(s: seq<T>, n: nat, cmp: (T, T) -> int, rank: T -> int)
    requires n > 0
  {
    s == [] ||
    var m := Min(n, |s|);
    StablySorted(s[..m], cmp, rank) && RanksBelow(s[..m], s[m..], rank) && RunsSorted(s[m..], n, cmp, rank)
  }

  lemma PassMembers<T>(s: seq<T>, n: nat, cmp: (T, T) -> int, x: T)
    requires n > 0
    ensures x in MergePass(s, n, cmp) <==> x in s
  {
    MergePassPermutes(s, n, cmp);
    assert x in MergePass(s, n, cmp) <==> x in multiset(MergePass(s, n, cmp));
    assert x in s <==> x in multiset(s);
  }

  /** A pass doubles the length of the sorted runs. */
  lemma {:induction false} PassDoublesRuns<T>(s: seq<T>, n: nat, cmp: (T, T) -> int, rank: T -> int, d: set<T>)
    requires n > 0 && TotalPreorder(d, cmp) && Within(s, d) && RunsSorted(s, n, cmp, rank)
    ensures RunsSorted(MergePass(s, n, cmp), 2 * n, cmp, rank)
  {
    hide Merge, TotalPreorder, StablySorted;
    if s != [] {
      var m, e := Min(n, |s|), Min(2 * n, |s|);
      var a, b, c := s[..m], s[m..e], s[e..];
      TwoRuns(s, n, cmp, rank);
      MergeStable(a, b, cmp, rank, d);
      PassDoublesRuns(c, n, cmp, rank, d);
      MergePermutes(a, b, cmp);
      MergePassPermutes(c, n, cmp);
      var merged, rest := Merge(a, b, cmp), MergePass(c, n, cmp);
      assert MergePass(s, n, cmp) == merged + rest;
      forall x, y | x in merged && y in rest
        ensures rank(x) <= rank(y)
      {
        MergeMembers(a, b, cmp, x);
        PassMembers(c, n, cmp, y);
      }
      AppendRun(merged, rest, 2 * n, cmp, rank);
    }
  }

  lemma TwoRuns<T>(s: seq<T>, n: nat, cmp: (T, T) -> int, rank: T -> int)
    requires n > 0 && s != [] && RunsSorted(s, n, cmp, rank)
    ensures var m, e := Min(n, |s|), Min(2 * n, |s|);
            && StablySorted(s[..m], cmp, rank) && StablySorted(s[m..e], cmp, rank) && RanksBelow(s[..m], s[m..e], rank)
            && RunsSorted(s[e..], n, cmp, rank)
            && RanksBelow(s[..m], s[e..], rank) && RanksBelow(s[m..e], s[e..], rank)
  {
    hide StablySorted, RanksBelow, RunsSorted;
    var m, e := Min(n, |s|), Min(2 * n, |s|);
    var t := s[m..];
    var k := Min(n, |t|);
    assert k == e - m;
    SliceInTwo(s, m, k);
    FirstRun(s, n, cmp, rank);
    SplitRanks(s[..m], t, k, rank);
    if t == [] {
      EmptyRun(t[..k], t[k..], cmp, rank);
    } else {
      FirstRun(t, n, cmp, rank);
    }
  }

  lemma SliceInTwo<T>(s: seq<T>, m: nat, k: nat)
    requires m + k <= |s|
    ensures s[m..][..k] == s[m..m + k] && s[m..][k..] == s[m + k..]
  {}

  lemma FirstRun<T>(s: seq<T>, n: nat, cmp: (T, T) -> int, rank: T -> int)
    requires n > 0 && s != [] && RunsSorted(s, n, cmp, rank)
    ensures var m := Min(n, |s|);
            StablySorted(s[..m], cmp, rank) && RanksBelow(s[..m], s[m..], rank) && RunsSorted(s[m..], n, cmp, rank)
  {
    hide StablySorted, RanksBelow;
  }

  lemma SplitRanks<T>(a: seq<T>, b: seq<T>, k: nat, rank: T -> int)
    requires k <= |b| && RanksBelow(a, b, rank)
    ensures RanksBelow(a, b[..k], rank) && RanksBelow(a, b[k..], rank)
  {}

  lemma EmptyRun<T>(a: seq<T>, b: seq<T>, cmp: (T, T) -> int, rank: T -> int)
    requires a == [] && b == []
    ensures StablySorted(a, cmp, rank) && RanksBelow(a, b, rank)
  {}

  lemma AppendRun<T>(a: seq<T>, b: seq<T>, n: nat, cmp: (T, T) -> int, rank: T -> int)
    requires n > 0 && a != [] && |a| <= n && (b == [] || |a| == n)
    requires StablySorted(a, cmp, rank) && RanksBelow(a, b, rank) && RunsSorted(b, n, cmp, rank)
    ensures RunsSorted(a + b, n, cmp, rank)
  {
    assert (a + b)[..|a|] == a && (a + b)[|a|..] == b;
  }

  lemma {:induction false} SortFromStable<T>(s: seq<T>, n: nat, cmp: (T, T) -> int, rank: T -> int, d: set<T>)
    requires n > 0 && TotalPreorder(d, cmp) && Within(s, d) && RunsSorted(s, n, cmp, rank)
    ensures StablySorted(SortFrom(s, n, cmp), cmp, rank)
    decreases |s| - n
  {
    PassDoublesRuns(s, n, cmp, rank, d);
    MergePassPermutes(s, n, cmp);
    var r := MergePass(s, n, cmp);
    if |s| <= 2 * n {
      assert r[..|r|] == r;
    } else {
      forall x | x in r ensures x in d { PassMembers(s, n, cmp, x); }
      SortFromStable(r, 2 * n, cmp, rank, d);
    }
  }

  lemma {:induction false} SinglesAreRuns<T>(s: seq<T>, cmp: (T, T) -> int, rank: T -> int)
    requires forall i, j :: 0 <= i < j < |s| ==> rank(s[i]) <= rank(s[j])
    ensures RunsSorted(s, 1, cmp, rank)
  {
    if s != [] {
      SinglesAreRuns(s[1..], cmp, rank);
    }
  }

  /** The sort is the stable sort: a sorted permutation that keeps the order of equals. */
  lemma SortIsStable<T>(s: seq<T>, cmp: (T, T) -> int, rank: T -> int, d: set<T>)
    requires TotalPreorder(d, cmp) && Within(s, d)
    requires forall i, j :: 0 <= i < j < |s| ==> rank(s[i]) <= rank(s[j])
    ensures multiset(SortFrom(s, 1, cmp)) == multiset(s)
    ensures StablySorted(SortFrom(s, 1, cmp), cmp, rank)
  {
    SinglesAreRuns(s, cmp, rank);
    SortFromStable(s, 1, cmp, rank, d);
    SortPermutes(s, 1, cmp);
  }

  /** There is only one stably sorted permutation. */
  lemma {:induction false} StablySortedUnique<T>(a: seq<T>, b: seq<T>, cmp: (T, T) -> int, rank: T -> int)
    requires multiset(a) == multiset(b)
    requires forall x, y :: x in a && y in a && rank(x) == rank(y) ==> x == y
    requires StablySorted(a, cmp, rank) && StablySorted(b, cmp, rank)
    ensures a == b
  {
    hide StablySorted;
    assert |multiset(a)| == |multiset(b)|;
    if a != [] {
      FirstIsLeast(a, b, cmp, rank);
      SortedTail(a, cmp, rank);
      SortedTail(b, cmp, rank);
      assert a == [a[0]] + a[1..] && b == [b[0]] + b[1..];
      assert multiset(a[1..]) == multiset(a) - multiset{a[0]};
      assert multiset(b[1..]) == multiset(b) - multiset{b[0]};
      StablySortedUnique(a[1..], b[1..], cmp, rank);
    }
  }

  lemma SortedTail<T>(a: seq<T>, cmp: (T, T) -> int, rank: T -> int)
    requires a != [] && StablySorted(a, cmp, rank)
    ensures StablySorted(a[1..], cmp, rank)
  {}

  lemma FirstIsLeast<T>(a: seq<T>, b: seq<T>, cmp: (T, T) -> int, rank: T -> int)
    requires a != [] && b != [] && multiset(a) == multiset(b)
    requires forall x, y :: x in a && y in a && rank(x) == rank(y) ==> x == y
    requires StablySorted(a, cmp, rank) && StablySorted(b, cmp, rank)
    ensures a[0] == b[0]
  {
    assert a[0] in multiset(b) && b[0] in multiset(a);
    var i :| 0 <= i < |b| && b[i] == a[0];
    var j :| 0 <= j < |a| && a[j] == b[0];
  }
}
