/** The adaptive include/exclude filter: sorted hashes, a scan for equal ones, binary search. */
module Adaptive {
  import opened Words
  import opened AdaptiveHash
  import opened MergeSort

  const MAX_NUM_FILES := 200

  // Loading a list.

  const HASH_MARK: Byte := 35

  /** Lines that name a component: neither empty nor a comment. */
  function Accepted(lines: seq<Str>): seq<Str>
  {
    if lines == [] then []
    else (if lines[0] == [] || lines[0][0] == HASH_MARK then [] else [lines[0]]) + Accepted(lines[1..])
  }

  function Hashes(names: seq<Str>): seq<nat>
  {
    seq(|names|, i requires 0 <= i < |names| => NameHash(names[i]))
  }

  ghost predicate AllDifferent(s: seq<nat>)
  {
    forall i, j :: 0 <= i < j < |s| ==> s[i] != s[j]
  }

  ghost predicate Ascending(s: seq<nat>)
  {
    forall i, j :: 0 <= i < j < |s| ==> s[i] <= s[j]
  }

  /** What opening the file and reading its first line came to. */
  datatype Header = NoFile | NoLine | Exclude | Include | Wrong

  /** kieker_adaptive_comp_ulong. */
  function CompUlong(x: nat, y: nat): int
  {
    if x < y then -1 else if x == y then 0 else 1
  }

  lemma CompUlongIsPreorder(d: set<nat>)
    ensures TotalPreorder(d, CompUlong)
  {}

  /** The sort of the C library, which the filter relies on, as the merge sort of module MergeSort. */
  method Qsort(a: array<nat>, n: nat)
    requires n <= a.Length
    modifies a
    ensures Ascending(a[..n]) && multiset(a[..n]) == multiset(old(a[..n])) && a[n..] == old(a[n..])
  {
    hide SortFrom, StablySorted;
    var s := SortFrom(a[..n], 1, CompUlong);
    SortedUlongs(a[..n]);
    var i := 0;
    while i < n
      invariant i <= n && a[..i] == s[..i] && a[n..] == old(a[n..])
    {
      a[i] := s[i];
      i := i + 1;
    }
    assert s[..n] == s;
  }

  lemma SortedUlongs(s: seq<nat>)
    ensures var r := SortFrom(s, 1, CompUlong);
            |r| == |s| && Ascending(r) && multiset(r) == multiset(s)
  {
    var d := set x | x in s;
    CompUlongIsPreorder(d);
    SortIsStable<nat>(s, CompUlong, (x: nat) => 0, d);
    var r := SortFrom(s, 1, CompUlong);
    assert |multiset(r)| == |multiset(s)|;
    forall i, j | 0 <= i < j < |r|
      ensures r[i] <= r[j]
    {
      assert Before<nat>(r[i], r[j], CompUlong, (x: nat) => 0);
    }
  }

  /** The binary search of the C library; an array that is not sorted it may search in vain. */
  method Bsearch(key: nat, a: array<nat>, n: nat) returns (found: bool)
    requires n <= a.Length
    ensures found ==> key in a[..n]
    ensures Ascending(a[..n]) ==> (found <==> key in a[..n])
  {
    var l, u := 0, n;
    while l < u
      invariant l <= u <= n
      invariant Ascending(a[..n]) ==> forall i :: 0 <= i < l ==> a[..n][i] < key
      invariant Ascending(a[..n]) ==> forall i :: u <= i < n ==> a[..n][i] > key
    {
      var idx := (l + u) / 2;
      var c := CompUlong(key, a[idx]);
      assert a[..n][idx] == a[idx];
      if c < 0 {
        u := idx;
      } else if c > 0 {
        l := idx + 1;
      } else {
        return true;
      }
    }
    return false;
  }

  /** The word behind the array of hashes: whatever the linker put there, possibly another variable of the filter. */
  datatype Cell = Untouched | Overwritten(hash: nat)

  /** The file-wide variables of the filter. */
  class Filter {
    const hashes: array<nat>
    var behind: Cell
    var excludesSize: nat
    var mode: int

    ghost predicate Sized()
      reads this
    {
      hashes.Length == MAX_NUM_FILES && excludesSize <= MAX_NUM_FILES
    }

    /** The state a binary search relies on. */
    ghost predicate Loaded()
      reads this, hashes
    {
      Sized() && Ascending(hashes[..excludesSize])
    }

    /** The hashes a lookup answers by. */
    ghost function Known(): set<nat>
      requires excludesSize <= hashes.Length
      reads this, hashes
    {
      set h | h in hashes[..excludesSize]
    }

    /** The answer the filter is to give about a class: its hash is known in EXCLUDE mode, unknown in INCLUDE mode. */
    ghost predicate Excludes(s: Str)
      requires Sized()
      reads this, hashes
    {
      mode != 0 <==> NameHash(s) in Known()
    }

    constructor ()
      ensures Loaded() && excludesSize == 0 && mode == 0 && behind.Untouched? && fresh(hashes)
    {
      hashes := new nat[MAX_NUM_FILES](_ => 0);
      excludesSize, mode, behind := 0, 0, Untouched;
    }

    /** kieker_adaptive_load_exclude_file, from the first line's verdict and the trimmed lines on. */
    method Load(header: Header, lines: seq<Str>) returns (ret: int)
      requires hashes.Length == MAX_NUM_FILES
      modifies this, hashes
      ensures ret == LoadResult(header, lines)
      ensures behind == if ret == -4 then Overwritten(NameHash(Accepted(lines)[MAX_NUM_FILES])) else old(behind)
      ensures (header.Exclude? || header.Include?) && old(behind).Untouched? ==>
                (behind.Untouched? <==> |Accepted(lines)| <= MAX_NUM_FILES)
      ensures -3 <= ret <= -1 ==> mode == old(mode) && excludesSize == old(excludesSize)
      ensures -3 <= ret <= -1 ==> hashes[..] == old(hashes[..])
      ensures ret == 0 || ret == -5 ==> mode == if header.Exclude? then 1 else 0
      ensures ret == 0 || ret == -5 ==> Loaded() && excludesSize == |Accepted(lines)|
      ensures ret == 0 || ret == -5 ==> Known() == set h | h in Hashes(Accepted(lines))
    {
      hide Hashes, Accepted, AllDifferent, Ascending;
      if header.NoFile? {
        return -1;
      }
      if header.NoLine? {
        return -2;
      }
      if header.Exclude? {
        mode := 1;
      } else if header.Include? {
        mode := 0;
      } else {
        return -3;
      }
      var fits, i := Store(lines);
      if !fits {
        return -4;
      }
      /* sort hashes for a binary search */
      excludesSize := i;
      Qsort(hashes, excludesSize);
      SameDifference(hashes[..i], Hashes(Accepted(lines)));
      SameMembers(hashes[..i], Hashes(Accepted(lines)));
      /* detect equal hashes */
      var equal := NeighboursEqual();
      return if equal then -5 else 0;
    }

    /** The reading loop: stores the hash of every accepted line, and only then tests whether there was room for it. */
    method Store(lines: seq<Str>) returns (fits: bool, i: nat)
      requires hashes.Length == MAX_NUM_FILES
      modifies `behind, hashes
      ensures fits <==> |Accepted(lines)| <= MAX_NUM_FILES
      ensures fits ==> i == |Accepted(lines)| && hashes[..i] == Hashes(Accepted(lines)) && behind == old(behind)
      ensures !fits ==> i == MAX_NUM_FILES + 1 && behind == Overwritten(NameHash(Accepted(lines)[MAX_NUM_FILES]))
    {
      hide NameHash, Accepted;
      ghost var names := Accepted(lines);
      var k := 0;
      i := 0;
      NothingRead(lines);
      while k < |lines|
        invariant k <= |lines| && i <= MAX_NUM_FILES && i <= |names|
        invariant names[i..] == Accepted(lines[k..]) && behind == old(behind)
        invariant forall m :: 0 <= m < i ==> hashes[m] == NameHash(names[m])
      {
        var line := lines[k];
        AcceptedStep(lines, k);
        if line != [] && line[0] != HASH_MARK {
          var h := Hash(line);
          assert names[i..][0] == line;
          if i < MAX_NUM_FILES {
            hashes[i] := h;
          } else {
            behind := Overwritten(h);
          }
          i := i + 1;
          if i > MAX_NUM_FILES {
            return false, i;
          }
          assert names[i..] == names[i - 1..][1..];
        }
        k := k + 1;
      }
      return true, i;
    }

    /** The scan for equal neighbours. */
    method NeighboursEqual() returns (equal: bool)
      requires Loaded()
      ensures equal <==> !AllDifferent(hashes[..excludesSize])
    {
      var j := 0;
      while j < excludesSize - 1
        invariant 0 <= j <= if excludesSize > 0 then excludesSize - 1 else 0
        invariant forall m :: 0 <= m < j ==> hashes[m] != hashes[m + 1]
      {
        if hashes[j] == hashes[j + 1] {
          assert hashes[..excludesSize][j] == hashes[..excludesSize][j + 1];
          return true;
        }
        j := j + 1;
      }
      NeighboursDiffer(hashes[..excludesSize]);
      return false;
    }

    /** kieker_adaptive_is_class_excluded. */
    method IsClassExcluded(classSignature: Str) returns (excluded: bool)
      requires Sized()
      ensures Loaded() ==> (excluded <==> Excludes(classSignature))
      ensures (excluded <==> mode != 0) ==> NameHash(classSignature) in Known()
    {
      var l := Hash(classSignature);
      var found := Bsearch(l, hashes, excludesSize);
      return (found && mode != 0) || (!found && mode == 0);
    }

    /** What loading a list of `names` leaves for the lookups. */
    ghost predicate Holds(names: seq<Str>)
      reads this, hashes
    {
      Sized() && Known() == set h | h in Hashes(names)
    }

    /** The answer by name: the class is listed in EXCLUDE mode, not listed in INCLUDE mode. */
    ghost predicate ByName(names: seq<Str>, s: Str)
      reads `mode
    {
      mode != 0 <==> s in names
    }

    /** In either mode, the filter answers about a class by its name if and only if the class is listed or 2^64 divides
        no difference of its weight and a listed name's. */
    lemma AnswersByName(names: seq<Str>, s: Str)
      requires Holds(names)
      ensures (Excludes(s) <==> ByName(names, s)) <==>
              (s in names || forall n <- names :: (Weight(s) - Weight(n)) % ULONG != 0)
    {
      hide NameHash, Weight;
      HashListed(names, s);
      forall n <- names
        ensures NameHash(n) == NameHash(s) <==> (Weight(s) - Weight(n)) % ULONG == 0
      {
        CollideExactly(s, n);
      }
    }

    /** Names that agree with the class but for at most twelve characters in the middle, close to each other as letters
        of one case are, are answered by name. */
    lemma CloseNamesByName(names: seq<Str>, s: Str, p: seq<Byte>, ms: seq<seq<Byte>>, x: seq<Byte>, t: seq<Byte>)
      requires Holds(names) && |names| == |ms| && s == p + x + t && |x| <= 12
      requires forall i :: 0 <= i < |names| ==> names[i] == p + ms[i] + t && Close(ms[i], x)
      ensures Excludes(s) <==> ByName(names, s)
    {
      hide NameHash;
      HashListed(names, s);
      forall i | 0 <= i < |names|
        ensures NameHash(names[i]) == NameHash(s) ==> names[i] == s
      {
        if ms[i] != x {
          CloseNamesDiffer(p, ms[i], x, t);
        }
      }
    }

    /** The filter answers about every class by its name if and only if no class is listed: any list is confused with a
        class that is not on it. */
    lemma ByNameForAllExactlyWhenEmpty(names: seq<Str>)
      requires Holds(names)
      ensures (forall s: Str :: Excludes(s) <==> ByName(names, s)) <==> names == []
    {
      hide NameHash;
      if names == [] {
        assert Hashes(names) == [];
      } else {
        var n := LongerThanAll(names);
        var s := HashIsOnto(5381, NameHash(names[0]), n);
        SameAsFirst(names, s);
        HashListed(names, s);
        assert !(Excludes(s) <==> ByName(names, s));
      }
    }
  }

  lemma HashListed(names: seq<Str>, s: Str)
    ensures NameHash(s) in Hashes(names) <==> exists n <- names :: NameHash(n) == NameHash(s)
  {
    hide NameHash;
    if NameHash(s) in Hashes(names) {
      var i :| 0 <= i < |names| && Hashes(names)[i] == NameHash(s);
      assert names[i] in names;
    }
    if n :| n in names && NameHash(n) == NameHash(s) {
      var i :| 0 <= i < |names| && names[i] == n;
      assert Hashes(names)[i] == NameHash(s);
    }
  }

  lemma SameAsFirst(names: seq<Str>, s: Str)
    requires names != [] && HashFrom(5381, s) == NameHash(names[0])
    ensures names[0] in names && NameHash(names[0]) == NameHash(s)
  {}

  function LongerThanAll(names: seq<Str>): (n: nat)
    ensures n >= 13 && forall s <- names :: |s| < n
  {
    if names == [] then 13
    else
      var n := LongerThanAll(names[1..]);
      assert names == [names[0]] + names[1..];
      if |names[0]| < n then n else |names[0]| + 1
  }

  lemma AcceptedStep(lines: seq<Str>, k: nat)
    requires k < |lines|
    ensures Accepted(lines[k..]) ==
            (if lines[k] == [] || lines[k][0] == HASH_MARK then [] else [lines[k]]) + Accepted(lines[k + 1..])
  {
    assert lines[k..][1..] == lines[k + 1..];
  }

  lemma NeighboursDiffer(s: seq<nat>)
    requires Ascending(s) && forall m :: 0 <= m < |s| - 1 ==> s[m] != s[m + 1]
    ensures AllDifferent(s)
  {
    forall i, j | 0 <= i < j < |s|
      ensures s[i] != s[j]
    {
      assert s[i] <= s[j - 1] && s[j - 1] != s[j - 1 + 1];
    }
  }

  lemma {:induction false} DifferentIsSingle(s: seq<nat>)
    ensures AllDifferent(s) <==> forall x <- multiset(s) :: multiset(s)[x] == 1
  {
    if s != [] {
      var n := |s| - 1;
      var init, last := s[..n], s[n];
      DifferentIsSingle(init);
      assert s == init + [last];
      assert multiset(s) == multiset(init) + multiset{last};
      if AllDifferent(s) {
        assert last !in init;
      } else if AllDifferent(init) {
        var i, j :| 0 <= i < j < |s| && s[i] == s[j];
        assert j == n && init[i] == last;
        assert multiset(s)[last] > 1;
      } else {
        var x :| x in multiset(init) && multiset(init)[x] != 1;
        assert multiset(s)[x] > 1;
      }
    }
  }

  lemma SameDifference(s: seq<nat>, t: seq<nat>)
    requires multiset(s) == multiset(t)
    ensures AllDifferent(s) <==> AllDifferent(t)
  {
    DifferentIsSingle(s);
    DifferentIsSingle(t);
  }

  lemma NothingRead(lines: seq<Str>)
    ensures Accepted(lines)[0..] == Accepted(lines[0..]) && Accepted(lines[|lines|..]) == []
  {
    assert lines[0..] == lines;
  }

  /** What loading answers. */
  ghost function LoadResult(header: Header, lines: seq<Str>): int
  {
    var names := Accepted(lines);
    match header
    case NoFile => -1
    case NoLine => -2
    case Wrong => -3
    case _ => if |names| > MAX_NUM_FILES then -4 else if AllDifferent(Hashes(names)) then 0 else -5
  }

  lemma SameMembers(s: seq<nat>, t: seq<nat>)
    requires multiset(s) == multiset(t)
    ensures (set h | h in s) == (set h | h in t)
  {
    assert forall h :: h in s <==> h in multiset(s);
    assert forall h :: h in t <==> h in multiset(t);
  }

  /** The answers of loading, each with its cause: no file, no first line, a wrong first line, more than 200 names, two
      names of one hash. */
  lemma LoadCodes(header: Header, lines: seq<Str>)
    ensures var ret, names := LoadResult(header, lines), Accepted(lines);
            && (ret == -1 <==> header.NoFile?)
            && (ret == -2 <==> header.NoLine?)
            && (ret == -3 <==> header.Wrong?)
            && (ret == -4 <==> (header.Exclude? || header.Include?) && |names| > 200)
            && (ret == -5 <==> (header.Exclude? || header.Include?) && |names| <= 200
                               && exists i, j :: 0 <= i < j < |names| && NameHash(names[i]) == NameHash(names[j]))
            && -5 <= ret <= 0
  {
    hide NameHash, Accepted;
    var names := Accepted(lines);
    forall i, j | 0 <= i < j < |names|
      ensures Hashes(names)[i] == Hashes(names)[j] <==> NameHash(names[i]) == NameHash(names[j])
    {}
  }

  lemma {:induction false} AcceptedAppend(a: seq<Str>, b: seq<Str>)
    ensures Accepted(a + b) == Accepted(a) + Accepted(b)
  {
    if a == [] {
      assert a + b == b;
    } else {
      assert (a + b)[1..] == a[1..] + b;
      AcceptedAppend(a[1..], b);
    }
  }

  /** The names are the lines that are not empty and do not start with '#', in their order: what every further line
      adds. */
  lemma AcceptedLine(lines: seq<Str>, l: Str)
    ensures Accepted([]) == []
    ensures Accepted(lines + [l]) == Accepted(lines) + if l != [] && l[0] != '#' as int then [l] else []
  {
    AcceptedAppend(lines, [l]);
    assert [l][1..] == [];
  }

  // Refused lists.

  /** A right header leads to success if and only if at most 200 names are accepted and 2^64 divides no difference of
      the weights of two of them; in particular a list with a name in it twice is refused. */
  lemma LoadsExactly(header: Header, lines: seq<Str>)
    requires header.Exclude? || header.Include?
    ensures var names := Accepted(lines);
            LoadResult(header, lines) == 0 <==>
            && |names| <= 200
            && forall i, j :: 0 <= i < j < |names| ==> (Weight(names[i]) - Weight(names[j])) % ULONG != 0
  {
    hide NameHash, Weight, Accepted;
    var names := Accepted(lines);
    forall i, j | 0 <= i < j < |names|
      ensures Hashes(names)[i] == Hashes(names)[j] <==> (Weight(names[i]) - Weight(names[j])) % ULONG == 0
    {
      CollideExactly(names[i], names[j]);
    }
  }

  /** 201 names of two letters: `AA`, `BA`, ..., `ZA`, `AB`, ... */
  function TooManyNames(): (lines: seq<Str>)
    ensures |lines| == MAX_NUM_FILES + 1
  {
    seq(MAX_NUM_FILES + 1, i requires 0 <= i <= MAX_NUM_FILES => [65 + i % 26, 65 + i / 26])
  }

  lemma {:induction false} AllAccepted(lines: seq<Str>)
    requires forall i :: 0 <= i < |lines| ==> lines[i] != [] && lines[i][0] != HASH_MARK
    ensures Accepted(lines) == lines
  {
    if lines != [] {
      AllAccepted(lines[1..]);
      assert lines == [lines[0]] + lines[1..];
    }
  }

  /** A list for which the loader writes behind the array before it notices: all 201 lines name a class. */
  lemma TooManyNamesOverrun()
    ensures Accepted(TooManyNames()) == TooManyNames() && LoadResult(Exclude, TooManyNames()) == -4
  {
    AllAccepted(TooManyNames());
  }

  /** Names do collide: excluding the class "Ab" also excludes the class "BA", and a list of both is refused. */
  lemma NamesCollide()
    ensures var ab, ba: Str := [65, 98], [66, 65];
            && NameHash(ab) == NameHash(ba)
            && NameHash(ba) in Hashes([ab])
            && LoadResult(Exclude, [ab, ba]) == -5
  {
    var ab: Str, ba: Str := [65, 98], [66, 65];
    HashOfTwo(65, 98);
    HashOfTwo(66, 65);
    assert Hashes([ab])[0] == NameHash(ab);
    assert [ab, ba][1..] == [ba] && [ba][1..] == [];
    assert Accepted([ba]) == [ba];
    assert Accepted([ab, ba]) == [ab] + [ba];
    assert Hashes([ab, ba])[0] == Hashes([ab, ba])[1];
    assert Accepted([ab, ba]) == [ab, ba];
    assert !AllDifferent(Hashes([ab, ba]));
  }

  lemma HashOfTwo(a: Byte, b: Byte)
    ensures NameHash([a, b]) == (5381 * 33 + a) * 33 + b
  {
    assert [a, b][1..] == [b] && [b][1..] == [];
    var h := 5381 * 33 + a;
    assert HashFrom(h, [b]) == HashFrom(h * 33 + b, []);
  }
}
