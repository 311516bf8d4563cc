/** The string table as a sequence: the id of a string is its place. */
module Interning {
  import opened Words

  /** The longest string that fits the string buffer behind its 12-byte header. */
  const MAX_STRING := 8180

  /** A C string, without its terminating zero. */
  type CString = s: seq<Byte> | 0 !in s && |s| <= MAX_STRING witness []

  type Table = seq<CString>

  /** The first place of `s` in the table, or the end of the table. */
  function IndexOf(table: Table, s: CString): (i: nat)
    ensures i <= |table|
    ensures i < |table| ==> table[i] == s
    ensures forall k :: 0 <= k < i ==> table[k] != s
    ensures s in table <==> i < |table|
  {
    if table == [] || table[0] == s then 0 else 1 + IndexOf(table[1..], s)
  }

  /** The table after `s` got an id. */
  function WithString(table: Table, s: CString): (t: Table)
    ensures table <= t && s in t
    ensures forall x :: x in t <==> x in table || x == s
  {
    if s in table then table else table + [s]
  }

  ghost predicate NoDuplicates(table: Table)
  {
    forall i, j :: 0 <= i < j < |table| ==> table[i] != table[j]
  }

  /** The tables a run over the strings `ss` goes through. */
  function WithStrings(table: Table, ss: seq<CString>): (t: Table)
    decreases |ss|
  {
    if ss == [] then table else WithStrings(WithString(table, ss[0]), ss[1..])
  }

  /** A string keeps its id for good: later interning only appends. */
  lemma IdIsStable(table: Table, longer: Table, s: CString)
    requires table <= longer && s in table
    ensures s in longer && IndexOf(longer, s) == IndexOf(table, s)
  {}

  lemma {:induction false} WithStringsGrows(table: Table, ss: seq<CString>)
    requires NoDuplicates(table)
    ensures table <= WithStrings(table, ss) && NoDuplicates(WithStrings(table, ss))
    ensures |WithStrings(table, ss)| <= |table| + |ss|
    ensures forall s :: s in WithStrings(table, ss) <==> s in table || s in ss
    decreases |ss|
  {
    if ss != [] {
      WithStringsGrows(WithString(table, ss[0]), ss[1..]);
      assert ss == [ss[0]] + ss[1..];
    }
  }

  /** Interning is an injective, append-only naming: two strings of a run get the same id exactly when they are equal,
      the ids are the places of one duplicate-free table, and the id a string had when it was interned is its id at the
      end of the run. */
  lemma NamingIsInjective(ss: seq<CString>, i: nat, j: nat)
    requires i < |ss| && j < |ss|
    ensures var final := WithStrings([], ss);
            && NoDuplicates(final)
            && (IndexOf(final, ss[i]) == IndexOf(final, ss[j]) <==> ss[i] == ss[j])
            && IndexOf(WithStrings([], ss[..i + 1]), ss[i]) == IndexOf(final, ss[i]) < |final|
  {
    hide IndexOf, WithStrings;
    var final := WithStrings([], ss);
    WithStringsGrows([], ss);
    SameIdSameString(final, ss[i], ss[j]);
    var first := ss[..i + 1];
    WithStringsGrows([], first);
    assert ss == first + ss[i + 1..];
    WithStringsSplits([], first, ss[i + 1..]);
    WithStringsGrows(WithStrings([], first), ss[i + 1..]);
    assert first[i] == ss[i];
    IdIsStable(WithStrings([], first), final, ss[i]);
  }

  lemma SameIdSameString(table: Table, s: CString, t: CString)
    requires s in table && t in table
    ensures IndexOf(table, s) < |table| && (IndexOf(table, s) == IndexOf(table, t) <==> s == t)
  {}

  lemma {:induction false} WithStringsSplits(table: Table, a: seq<CString>, b: seq<CString>)
    ensures WithStrings(table, a + b) == WithStrings(WithStrings(table, a), b)
    decreases |a|
  {
    if a == [] {
      assert a + b == b;
    } else {
      assert (a + b)[1..] == a[1..] + b;
      WithStringsSplits(WithString(table, a[0]), a[1..], b);
    }
  }
}
