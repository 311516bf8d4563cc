/** The whole byte stream: what the probes write is what a reader gets. */
module Stream {
  import opened Interning
  import opened Wire
  import opened Decoder
  import opened Probes

  /** The three record types hold the ids their prefixes carry. */
  ghost predicate TypesNamed(table: Table)
  {
    |table| >= 3 && table[0] == TRACE_METADATA && table[1] == BEFORE_OPERATION && table[2] == AFTER_OPERATION
  }

  lemma TypeNamesDiffer()
    ensures TRACE_METADATA != BEFORE_OPERATION && BEFORE_OPERATION != AFTER_OPERATION
    ensures TRACE_METADATA != AFTER_OPERATION
  {
    assert |TRACE_METADATA| == 45 && |BEFORE_OPERATION| == 62 && |AFTER_OPERATION| == 61;
  }

  /** The three record types hold the ids 0, 1 and 2 once registered, and each is announced. */
  lemma RegisteredTypes()
    ensures REGISTERED.table == [TRACE_METADATA, BEFORE_OPERATION, AFTER_OPERATION]
    ensures TypesNamed(REGISTERED.table) && NoDuplicates(REGISTERED.table)
    ensures REGISTERED.wire == Announcements(REGISTERED.table, 0)
  {
    hide Announcements, PutAll, NoDuplicates, Ascii;
    TypeNamesDiffer();
    ThreePut(TRACE_METADATA, BEFORE_OPERATION, AFTER_OPERATION);
  }

  lemma ThreePut(a: CString, b: CString, c: CString)
    requires a != b && b != c && a != c
    ensures var out := PutAll([Str(a), Str(b), Str(c)], Out([], [], []));
            out.table == [a, b, c] && out.wire == Announcements([a, b, c], 0) && NoDuplicates(out.table)
  {
    hide Announcements, PutAll;
    NewNamesOfThree(a, b, c);
    PutAllAnnounces([Str(a), Str(b), Str(c)], Out([], [], []));
  }

  lemma NewNamesOfThree(a: CString, b: CString, c: CString)
    requires a != b && b != c && a != c
    ensures NewNames([Str(a), Str(b), Str(c)], []) == [a, b, c]
  {
    NewNameFirst(c, [], [a, b]);
    NewNameFirst(b, [Str(c)], [a]);
    NewNameFirst(a, [Str(b), Str(c)], []);
    assert [Str(a)] + [Str(b), Str(c)] == [Str(a), Str(b), Str(c)] && [Str(b)] + [Str(c)] == [Str(b), Str(c)];
    assert [Str(c)] + [] == [Str(c)] && [] + [a] == [a] && [a] + [b] == [a, b];
    assert NewNames([], [a, b, c]) == [];
  }

  lemma NewNameFirst(s: CString, fs: seq<Field>, table: Table)
    requires s !in table
    ensures NewNames([Str(s)] + fs, table) == [s] + NewNames(fs, table + [s])
  {
    assert ([Str(s)] + fs)[1..] == fs;
  }

  lemma RecordWellTyped(e: Event, c: Call, host: CString, table: Table)
    requires TypesNamed(table)
    ensures WellTyped(RecordOf(e, c, host), table)
  {
    TypeNamesDiffer();
    var r := RecordOf(e, c, host);
    if e.Metadata? {
      assert Kinds(r.fields) == METADATA_KINDS;
    } else {
      assert Kinds(r.fields) == EVENT_KINDS;
    }
  }

  lemma {:induction false} RecordsWellTyped(es: seq<Event>, c: Call, host: CString, table: Table)
    requires TypesNamed(table)
    ensures forall r <- RecordsOf(es, c, host) :: WellTyped(r, table)
  {
    hide WellTyped, RecordOf, TypesNamed;
    if es != [] {
      RecordWellTyped(es[0], c, host, table);
      RecordsWellTyped(es[1..], c, host, table);
    }
  }

  lemma {:induction false} TableGrows(m: Monitor, cs: seq<Call>, host: CString)
    ensures m.out.table <= Run(m, cs, host).out.table && m.out.wire <= Run(m, cs, host).out.wire
    decreases |cs|
  {
    hide PutAll, RecordsOf, After;
    if cs != [] {
      var c := cs[0];
      var next := Step(m, c, host);
      var rs := RecordsOf(Reported(m.registry, c), c, host);
      PutAllAnnounces(BatchFields(rs), m.out.(buffer := []));
      assert m.out.table <= next.out.table && m.out.wire <= next.out.wire;
      TableGrows(next, cs[1..], host);
    }
  }

  /** From any state with the record types in place, the bytes written by a run decode to its messages. */
  lemma {:induction false} RunDecodes(m: Monitor, cs: seq<Call>, host: CString)
    requires TypesNamed(m.out.table) && |Run(m, cs, host).out.table| <= INT32_LIMIT
    ensures m.out.wire <= Run(m, cs, host).out.wire
    ensures Decode(Run(m, cs, host).out.wire[|m.out.wire|..], m.out.table) == Some(RunMsgs(m, cs, host))
    decreases |cs|
  {
    hide SendBatch, Decode, RecordsOf, TypesNamed, BatchMsgs, WellTyped, Prepend, After;
    TableGrows(m, cs, host);
    var end := Run(m, cs, host).out.wire;
    if cs == [] {
      DecodeNothing(m.out.table);
    } else {
      var c := cs[0];
      var next := Step(m, c, host);
      var rs := RecordsOf(Reported(m.registry, c), c, host);
      RecordsWellTyped(Reported(m.registry, c), c, host, m.out.table);
      TableGrows(next, cs[1..], host);
      var rest := end[|next.out.wire|..];
      ReadsBatch(rs, m.out, rest);
      TypesStay(m.out.table, next.out.table);
      RunDecodes(next, cs[1..], host);
      assert end[|m.out.wire|..] == next.out.wire[|m.out.wire|..] + rest;
      PrependSome(BatchMsgs(rs, m.out.table), RunMsgs(next, cs[1..], host));
    }
  }

  lemma DecodeNothing(names: Table)
    ensures Decode([], names) == Some([])
  {}

  lemma PrependSome(a: seq<Msg>, b: seq<Msg>)
    ensures Prepend(a, Some(b)) == Some(a + b)
  {}

  lemma TypesStay(table: Table, longer: Table)
    requires TypesNamed(table) && table <= longer
    ensures TypesNamed(longer)
  {}

  /** End to end: a reader that sees only the bytes of a fresh connection, and knows nothing but the record types by
      name, recovers exactly the string announcements and records of the run, in order, with every string resolved. */
  lemma StreamDecodes(val: int, cs: seq<Call>, host: CString)
    requires |Run(Start(val), cs, host).out.table| <= INT32_LIMIT
    ensures Decode(Run(Start(val), cs, host).out.wire, []) ==
            Some(AnnouncedMsgs(REGISTERED.table, 0) + RunMsgs(Start(val), cs, host))
    ensures TypesNamed(Run(Start(val), cs, host).out.table)
  {
    hide Run, RunMsgs, Decode, AnnouncedMsgs, Announcements, Prepend, PutAll, TypesNamed;
    RegisteredTypes();
    var m := Start(val);
    assert m.out == REGISTERED;
    RunDecodes(m, cs, host);
    TableGrows(m, cs, host);
    TypesStay(m.out.table, Run(m, cs, host).out.table);
    var wire := Run(m, cs, host).out.wire;
    var rest := wire[|REGISTERED.wire|..];
    ReadsAnnouncements(REGISTERED.table, [], rest);
    assert wire == Announcements(REGISTERED.table, 0) + rest;
    assert [] + REGISTERED.table == REGISTERED.table;
    PrependSome(AnnouncedMsgs(REGISTERED.table, 0), RunMsgs(m, cs, host));
  }

  /** The announcements among the messages. */
  function AnnouncedIn(ms: seq<Msg>): seq<Msg>
  {
    if ms == [] then [] else (if ms[0].Announced? then [ms[0]] else []) + AnnouncedIn(ms[1..])
  }

  lemma {:induction false} AnnouncedInAppend(a: seq<Msg>, b: seq<Msg>)
    ensures AnnouncedIn(a + b) == AnnouncedIn(a) + AnnouncedIn(b)
  {
    if a == [] {
      assert a + b == b;
    } else {
      assert (a + b)[1..] == a[1..] + b;
      AnnouncedInAppend(a[1..], b);
    }
  }

  lemma {:induction false} OnlyAnnouncements(ss: seq<CString>, from: nat)
    ensures AnnouncedIn(AnnouncedMsgs(ss, from)) == AnnouncedMsgs(ss, from)
    decreases |ss|
  {
    if ss != [] {
      OnlyAnnouncements(ss[1..], from + 1);
    }
  }

  lemma {:induction false} NoAnnouncements(rs: seq<Rec>)
    ensures AnnouncedIn(RecordedMsgs(rs)) == []
  {
    if rs != [] {
      NoAnnouncements(rs[1..]);
    }
  }

  lemma {:induction false} AnnouncedMsgsAppend(a: seq<CString>, b: seq<CString>, from: nat)
    ensures AnnouncedMsgs(a + b, from) == AnnouncedMsgs(a, from) + AnnouncedMsgs(b, from + |a|)
    decreases |a|
  {
    if a == [] {
      assert a + b == b;
    } else {
      assert (a + b)[1..] == a[1..] + b;
      AnnouncedMsgsAppend(a[1..], b, from + 1);
    }
  }

  lemma {:induction false} RunAnnounces(m: Monitor, cs: seq<Call>, host: CString)
    requires NoDuplicates(m.out.table)
    ensures m.out.table <= Run(m, cs, host).out.table && NoDuplicates(Run(m, cs, host).out.table)
    ensures AnnouncedIn(RunMsgs(m, cs, host)) ==
            AnnouncedMsgs(Run(m, cs, host).out.table[|m.out.table|..], |m.out.table|)
    decreases |cs|
  {
    hide PutAll, RecordsOf, After, NewNames, AnnouncedIn, AnnouncedMsgs, RecordedMsgs;
    if cs == [] {
      NothingAnnouncedIn(|m.out.table|);
    } else {
      var c := cs[0];
      var next := Step(m, c, host);
      var rs := RecordsOf(Reported(m.registry, c), c, host);
      var fs := BatchFields(rs);
      var ss := NewNames(fs, m.out.table);
      PutAllAnnounces(fs, m.out.(buffer := []));
      NewNamesAreNew(fs, m.out.table);
      RunAnnounces(next, cs[1..], host);
      AnnouncedInAppend(BatchMsgs(rs, m.out.table), RunMsgs(next, cs[1..], host));
      AnnouncedInAppend(AnnouncedMsgs(ss, |m.out.table|), RecordedMsgs(rs));
      OnlyAnnouncements(ss, |m.out.table|);
      NoAnnouncements(rs);
      var end := Run(m, cs, host).out.table;
      assert end[|m.out.table|..] == ss + end[|next.out.table|..];
      AnnouncedMsgsAppend(ss, end[|next.out.table|..], |m.out.table|);
    }
  }

  lemma NothingAnnouncedIn(from: nat)
    ensures AnnouncedIn([]) == [] && AnnouncedMsgs([], from) == []
  {}

  lemma {:induction false} NewNamesAreNew(fs: seq<Field>, table: Table)
    requires NoDuplicates(table)
    ensures NoDuplicates(table + NewNames(fs, table))
  {
    if fs != [] {
      if fs[0].Str? && fs[0].s !in table {
        NewNamesAreNew(fs[1..], table + [fs[0].s]);
        assert table + [fs[0].s] + NewNames(fs[1..], table + [fs[0].s]) == table + NewNames(fs, table);
      } else {
        NewNamesAreNew(fs[1..], table);
      }
    }
  }

  lemma TableIsAnnounced(m: Monitor, cs: seq<Call>, host: CString)
    requires NoDuplicates(m.out.table)
    ensures var end := Run(m, cs, host).out.table;
            && NoDuplicates(end)
            && AnnouncedIn(AnnouncedMsgs(m.out.table, 0) + RunMsgs(m, cs, host)) == AnnouncedMsgs(end, 0)
  {
    hide Run, RunMsgs, AnnouncedIn, AnnouncedMsgs, NoDuplicates;
    RunAnnounces(m, cs, host);
    var table, end := m.out.table, Run(m, cs, host).out.table;
    AnnouncedInAppend(AnnouncedMsgs(table, 0), RunMsgs(m, cs, host));
    OnlyAnnouncements(table, 0);
    AnnouncedMsgsAppend(table, end[|table|..], 0);
    assert table + end[|table|..] == end;
  }

  /** Each id of the run is announced exactly once, in increasing order, each with a string of its own: the
      announcements of the stream list the final table. */
  lemma EachIdAnnouncedOnce(val: int, cs: seq<Call>, host: CString)
    ensures var end := Run(Start(val), cs, host).out.table;
            && NoDuplicates(end)
            && AnnouncedIn(AnnouncedMsgs(REGISTERED.table, 0) + RunMsgs(Start(val), cs, host)) == AnnouncedMsgs(end, 0)
  {
    hide Run, RunMsgs, AnnouncedIn, AnnouncedMsgs, PutAll, NoDuplicates, Ascii;
    RegisteredTypes();
    TableIsAnnounced(Start(val), cs, host);
  }
}
