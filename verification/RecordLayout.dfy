/** The serialized records byte by byte: which field of the struct a reader finds at which offset. */
module RecordLayout {
  import opened Words
  import opened Bytes
  import opened Interning
  import opened Wire
  import opened Records

  /** The `w` bytes at `p` hold the number `v` in network order. */
  predicate NumberAt(out: Out, p: nat, w: nat, v: int)
  {
    p + w <= |out.buffer| && IntOf(out.buffer[p..p + w]) == WireView(v, w)
  }

  /** The four bytes at `p` hold the id of `s`. */
  predicate NameAt(out: Out, p: nat, s: CString)
  {
    && p + 4 <= |out.buffer|
    && 0 <= IntOf(out.buffer[p..p + 4]) < |out.table| && out.table[IntOf(out.buffer[p..p + 4])] == s
  }

  predicate FieldAt(out: Out, p: nat, f: Field)
  {
    match f
    case Num(k, v) => NumberAt(out, p, Width(k), v)
    case Str(s) => NameAt(out, p, s)
  }

  /** The next field starts where this one ends. */
  lemma FirstField(f: Field, fs: seq<Field>, out: Out)
    requires |PutAll([f] + fs, out).table| <= INT32_LIMIT
    ensures FieldAt(PutAll([f] + fs, out), |out.buffer|, f)
    ensures PutAll([f] + fs, out) == PutAll(fs, Put(f, out))
    ensures |Put(f, out).buffer| == |out.buffer| + Width(KindOf(f))
  {
    hide IntBytes, FieldBytes, FieldsBytes, PutAll;
    var r := PutAll([f] + fs, out);
    PutFirst([f] + fs, out);
    assert ([f] + fs)[1..] == fs;
    PutAllFills([f] + fs, out);
    PutAllNames([f] + fs, out);
    FirstBytes(f, fs, r.table);
    var p, w := |out.buffer|, Width(KindOf(f));
    assert r.buffer[p..p + w] == FieldBytes(f, r.table);
    assert f in [f] + fs;
    BytesShown(f, r.table);
  }

  lemma FirstBytes(f: Field, fs: seq<Field>, table: Table)
    ensures FieldsBytes([f] + fs, table) == FieldBytes(f, table) + FieldsBytes(fs, table)
  {
    hide FieldBytes;
    assert ([f] + fs)[1..] == fs;
  }

  lemma BytesShown(f: Field, table: Table)
    requires |table| <= INT32_LIMIT && (f.Str? ==> f.s in table)
    ensures f.Num? ==> IntOf(FieldBytes(f, table)) == WireView(f.v, Width(f.kind))
    ensures f.Str? ==> 0 <= IntOf(FieldBytes(f, table)) < |table| && table[IntOf(FieldBytes(f, table))] == f.s
  {
    match f
    case Num(k, v) => IntRoundTrip(v, Width(k));
    case Str(s) => Int32Exact(IndexOf(table, s));
  }

  /** The fields `fs` lie one behind the other from `p` on, up to the end of the buffer. */
  ghost predicate LaidOut(fs: seq<Field>, out: Out, p: nat)
    decreases |fs|
  {
    if fs == [] then |out.buffer| == p
    else FieldAt(out, p, fs[0]) && LaidOut(fs[1..], out, p + Width(KindOf(fs[0])))
  }

  lemma {:induction false} FieldsLaidOut(fs: seq<Field>, out: Out)
    requires |PutAll(fs, out).table| <= INT32_LIMIT
    ensures LaidOut(fs, PutAll(fs, out), |out.buffer|)
    decreases |fs|
  {
    hide FieldAt, Put;
    if fs != [] {
      assert [fs[0]] + fs[1..] == fs;
      FirstField(fs[0], fs[1..], out);
      FieldsLaidOut(fs[1..], Put(fs[0], out));
    }
  }

  lemma NextField(fs: seq<Field>, k: nat, out: Out, p: nat)
    requires k < |fs| && LaidOut(fs[k..], out, p)
    ensures FieldAt(out, p, fs[k]) && LaidOut(fs[k + 1..], out, p + Width(KindOf(fs[k])))
  {
    hide FieldAt;
    assert fs[k..][0] == fs[k] && fs[k..][1..] == fs[k + 1..];
  }

  lemma LastField(fs: seq<Field>, out: Out, p: nat)
    requires LaidOut(fs[|fs|..], out, p)
    ensures |out.buffer| == p
  {}

  /** OperationExecution: 44 bytes. */
  lemma ExecutionLayout(r: OperationExecution, out: Out)
    requires |PutAll(ExecutionFields(r), out).table| <= INT32_LIMIT
    ensures var p, end := |out.buffer|, PutAll(ExecutionFields(r), out);
            && NameAt(end, p, r.operationSignature)
            && NameAt(end, p + 4, r.sessionId)
            && NumberAt(end, p + 8, 8, r.traceId)
            && NumberAt(end, p + 16, 8, r.tin)
            && NumberAt(end, p + 24, 8, r.tout)
            && NameAt(end, p + 32, r.hostname)
            && NumberAt(end, p + 36, 4, r.eoi)
            && NumberAt(end, p + 40, 4, r.ess)
            && |end.buffer| == p + 44
  {
    hide PutAll, LaidOut, NumberAt, NameAt;
    var fs, p, end := ExecutionFields(r), |out.buffer|, PutAll(ExecutionFields(r), out);
    FieldsLaidOut(fs, out);
    assert fs[0..] == fs;
    NextField(fs, 0, end, p);
    NextField(fs, 1, end, p + 4);
    NextField(fs, 2, end, p + 8);
    NextField(fs, 3, end, p + 16);
    NextField(fs, 4, end, p + 24);
    NextField(fs, 5, end, p + 32);
    NextField(fs, 6, end, p + 36);
    NextField(fs, 7, end, p + 40);
    LastField(fs, end, p + 44);
  }

  /** KiekerMetadataRecord: 37 bytes, unaligned behind the boolean. */
  lemma KiekerLayout(r: KiekerMetadata, out: Out)
    requires |PutAll(KiekerFields(r), out).table| <= INT32_LIMIT
    ensures var p, end := |out.buffer|, PutAll(KiekerFields(r), out);
            && NameAt(end, p, r.version)
            && NameAt(end, p + 4, r.controllerName)
            && NameAt(end, p + 8, r.hostname)
            && NumberAt(end, p + 12, 4, r.experimentId)
            && NumberAt(end, p + 16, 1, r.debugMode)
            && NumberAt(end, p + 17, 8, r.timeOffset)
            && NameAt(end, p + 25, r.timeUnit)
            && NumberAt(end, p + 29, 8, r.numberOfRecords)
            && |end.buffer| == p + 37
  {
    hide PutAll, LaidOut, NumberAt, NameAt;
    var fs, p, end := KiekerFields(r), |out.buffer|, PutAll(KiekerFields(r), out);
    FieldsLaidOut(fs, out);
    assert fs[0..] == fs;
    NextField(fs, 0, end, p);
    NextField(fs, 1, end, p + 4);
    NextField(fs, 2, end, p + 8);
    NextField(fs, 3, end, p + 12);
    NextField(fs, 4, end, p + 16);
    NextField(fs, 5, end, p + 17);
    NextField(fs, 6, end, p + 25);
    NextField(fs, 7, end, p + 29);
    LastField(fs, end, p + 37);
  }

  /** TraceMetadata: 36 bytes, without the next order id. */
  lemma MetadataLayout(r: TraceMetadata, out: Out)
    requires |PutAll(MetadataFields(r), out).table| <= INT32_LIMIT
    ensures var p, end := |out.buffer|, PutAll(MetadataFields(r), out);
            && NumberAt(end, p, 8, r.traceId)
            && NumberAt(end, p + 8, 8, r.threadId)
            && NameAt(end, p + 16, r.sessionId)
            && NameAt(end, p + 20, r.hostname)
            && NumberAt(end, p + 24, 8, r.parentTraceId)
            && NumberAt(end, p + 32, 4, r.parentOrderId)
            && |end.buffer| == p + 36
  {
    hide PutAll, LaidOut, NumberAt, NameAt;
    var fs, p, end := MetadataFields(r), |out.buffer|, PutAll(MetadataFields(r), out);
    FieldsLaidOut(fs, out);
    assert fs[0..] == fs;
    NextField(fs, 0, end, p);
    NextField(fs, 1, end, p + 8);
    NextField(fs, 2, end, p + 16);
    NextField(fs, 3, end, p + 20);
    NextField(fs, 4, end, p + 24);
    NextField(fs, 5, end, p + 32);
    LastField(fs, end, p + 36);
  }

  /** BeforeOperationEvent and AfterOperationEvent: 28 bytes. */
  lemma EventLayout(r: OperationEvent, out: Out)
    requires |PutAll(EventFields(r), out).table| <= INT32_LIMIT
    ensures var p, end := |out.buffer|, PutAll(EventFields(r), out);
            && NumberAt(end, p, 8, r.timestamp)
            && NumberAt(end, p + 8, 8, r.traceId)
            && NumberAt(end, p + 16, 4, r.orderIndex)
            && NameAt(end, p + 20, r.operationSignature)
            && NameAt(end, p + 24, r.classSignature)
            && |end.buffer| == p + 28
  {
    hide PutAll, LaidOut, NumberAt, NameAt;
    var fs, p, end := EventFields(r), |out.buffer|, PutAll(EventFields(r), out);
    FieldsLaidOut(fs, out);
    assert fs[0..] == fs;
    NextField(fs, 0, end, p);
    NextField(fs, 1, end, p + 8);
    NextField(fs, 2, end, p + 16);
    NextField(fs, 3, end, p + 20);
    NextField(fs, 4, end, p + 24);
    LastField(fs, end, p + 28);
  }

  /** The bytes a number of each kind takes. */
  lemma NumberBytes(v: int, out: Out)
    ensures Put(Num(Boolean, v), out) == out.(buffer := out.buffer + IntBytes(v, 1))
    ensures Put(Num(Int8, v), out) == out.(buffer := out.buffer + IntBytes(v, 1))
    ensures Put(Num(Int16, v), out) == out.(buffer := out.buffer + IntBytes(v, 2))
    ensures Put(Num(Int32, v), out) == out.(buffer := out.buffer + IntBytes(v, 4))
    ensures Put(Num(Int64, v), out) == out.(buffer := out.buffer + IntBytes(v, 8))
  {
    hide IntBytes;
  }

  /** A negative number and a four-byte one in network order. */
  lemma KnownBytes()
    ensures IntBytes(-1, 4) == [255, 255, 255, 255]
    ensures IntBytes(0x0102_0304, 4) == [1, 2, 3, 4]
  {
    hide BigBytes, Wrapped;
    KnownWrapped();
    FourBigBytes(0xffff_ffff);
    FourBigBytes(0x0102_0304);
  }

  lemma KnownWrapped()
    ensures Wrapped(-1, 4) == 0xffff_ffff && Wrapped(0x0102_0304, 4) == 0x0102_0304
  {
    Base4();
  }

  lemma FourBigBytes(n: nat)
    ensures BigBytes(n, 4) == [(n / 0x100_0000) % 0x100, (n / 0x1_0000) % 0x100, (n / 0x100) % 0x100, n % 0x100]
  {
    assert n / 0x100 / 0x100 == n / 0x1_0000 && n / 0x1_0000 / 0x100 == n / 0x100_0000;
    assert BigBytes(n / 0x100_0000, 1) == [(n / 0x100_0000) % 0x100];
    assert BigBytes(n / 0x1_0000, 2) == [(n / 0x100_0000) % 0x100, (n / 0x1_0000) % 0x100];
    assert BigBytes(n / 0x100, 3) == [(n / 0x100_0000) % 0x100, (n / 0x1_0000) % 0x100, (n / 0x100) % 0x100];
  }

  /** The announcement of a string: -1, the id, the length, and the bytes of the string behind the twelfth; it fits the
      string buffer. */
  lemma AnnouncementLayout(id: int, s: seq<Byte>)
    requires 0 !in s && |s| <= 8180
    ensures var a := Announcement(id, s);
            && |a| == 12 + |s| <= 8192
            && a[..4] == [255, 255, 255, 255]
            && IntOf(a[4..8]) == WireView(id, 4)
            && IntOf(a[8..12]) == |s|
            && a[12..] == s
  {
    hide IntBytes, IntOf;
    KnownBytes();
    IntRoundTrip(id, 4);
    Int32Exact(|s|);
    var m, i, n := IntBytes(-1, 4), IntBytes(id, 4), IntBytes(|s|, 4);
    assert m + i + n + s == m + (i + (n + s));
    assert (m + (i + (n + s)))[..4] == m && (m + (i + (n + s)))[4..8] == i && (m + (i + (n + s)))[8..12] == n;
  }
}
