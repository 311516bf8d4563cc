/** A reader of the byte stream: it knows the record types by name and nothing of the writer's state. */
module Decoder {
  import opened Words
  import opened Bytes
  import opened Interning
  import opened Wire

  /** A character code; the event type names are plain ASCII. */
  function Code(c: char): Byte { if 0 < c as int < 0x80 then c as int else 63 }

  function Ascii(s: string): (r: CString)
    requires |s| <= MAX_STRING
    ensures |r| == |s|
  {
    seq(|s|, i requires 0 <= i < |s| => Code(s[i]))
  }

  const TRACE_METADATA: CString := Ascii("kieker.common.record.flow.trace.TraceMetadata")
  const BEFORE_OPERATION: CString := Ascii("kieker.common.record.flow.trace.operation.BeforeOperationEvent")
  const AFTER_OPERATION: CString := Ascii("kieker.common.record.flow.trace.operation.AfterOperationEvent")

  const METADATA_KINDS: seq<Kind> := [Int64, Int64, Text, Text, Int64, Int32]
  const EVENT_KINDS: seq<Kind> := [Int64, Int64, Int32, Text, Text]

  /** The fields of the record types a trace needs. */
  function SchemaOf(name: CString): Option<seq<Kind>>
  {
    if name == TRACE_METADATA then Some(METADATA_KINDS)
    else if name == BEFORE_OPERATION || name == AFTER_OPERATION then Some(EVENT_KINDS)
    else None
  }

  /** A message of the stream, as read. */
  datatype Msg = Announced(id: int, s: CString) | Recorded(typeId: int, time: int, fields: seq<Field>)

  function ReadString(s: seq<Byte>, names: Table): (r: Option<(Msg, seq<Byte>)>)
    ensures r.Some? ==> |r.value.1| <= |s|
  {
    if |s| < 8 then None
    else
      var id, len := IntOf(s[..4]), IntOf(s[4..8]);
      if id != |names| || !(0 <= len <= |s| - 8) || len > MAX_STRING || 0 in s[8..8 + len] then None
      else Some((Announced(id, s[8..8 + len]), s[8 + len..]))
  }

  function ReadRecord(typeId: int, s: seq<Byte>, names: Table): (r: Option<(Msg, seq<Byte>)>)
    ensures r.Some? ==> |r.value.1| <= |s|
  {
    if |s| < 8 || !(0 <= typeId < |names|) then None
    else
      match SchemaOf(names[typeId])
      case None => None
      case Some(ks) =>
        match DecodeFields(ks, s[8..], names)
        case None => None
        case Some(r) => Some((Recorded(typeId, IntOf(s[..8]), r.0), r.1))
  }

  /** Reads one message: id -1 starts a string announcement, any other id a record of the type announced under it. */
  function ReadMsg(s: seq<Byte>, names: Table): (r: Option<(Msg, seq<Byte>)>)
    ensures r.Some? ==> |r.value.1| < |s|
  {
    if |s| < 4 then None
    else if IntOf(s[..4]) == -1 then ReadString(s[4..], names)
    else ReadRecord(IntOf(s[..4]), s[4..], names)
  }

  function Learn(m: Msg, names: Table): Table { if m.Announced? then names + [m.s] else names }

  /** Reads a whole stream; `None` when it is malformed. */
  function Decode(s: seq<Byte>, names: Table): Option<seq<Msg>>
    decreases |s|
  {
    if s == [] then Some([])
    else
      match ReadMsg(s, names)
      case None => None
      case Some(r) => Prepend([r.0], Decode(r.1, Learn(r.0, names)))
  }

  function Prepend(ms: seq<Msg>, rest: Option<seq<Msg>>): Option<seq<Msg>>
  {
    if rest.None? then None else Some(ms + rest.value)
  }

  // The writer's side.

  /** A record behind its prefix of type id and timestamp. */
  datatype Rec = Rec(typeId: int, time: int, fields: seq<Field>)

  function RecFields(r: Rec): seq<Field>
  {
    [Num(Int32, r.typeId), Num(Int64, r.time)] + r.fields
  }

  function BatchFields(rs: seq<Rec>): seq<Field>
  {
    if rs == [] then [] else RecFields(rs[0]) + BatchFields(rs[1..])
  }

  /** Serializes the records `rs` into an empty buffer and sends the buffer. */
  function SendBatch(rs: seq<Rec>, out: Out): Out
  {
    Send(PutAll(BatchFields(rs), out.(buffer := [])))
  }

  function AnnouncedMsgs(ss: seq<CString>, from: nat): seq<Msg>
  {
    if ss == [] then [] else [Announced(from, ss[0])] + AnnouncedMsgs(ss[1..], from + 1)
  }

  function RecordedMsg(r: Rec): Msg
  {
    Recorded(r.typeId, WireView(r.time, 8), Views(r.fields))
  }

  function RecordedMsgs(rs: seq<Rec>): seq<Msg>
  {
    if rs == [] then [] else [RecordedMsg(rs[0])] + RecordedMsgs(rs[1..])
  }

  /** What the reader is meant to get from one batch. */
  function BatchMsgs(rs: seq<Rec>, table: Table): seq<Msg>
  {
    AnnouncedMsgs(NewNames(BatchFields(rs), table), |table|) + RecordedMsgs(rs)
  }

  /** The type of the record is known under its id, and its fields have the kinds of that type. */
  ghost predicate WellTyped(r: Rec, names: Table)
  {
    && 0 <= r.typeId < |names|
    && SchemaOf(names[r.typeId]) == Some(Kinds(r.fields))
    && AllProper(r.fields)
  }

  lemma Cut<T>(a: seq<T>, b: seq<T>)
    ensures (a + b)[..|a|] == a && (a + b)[|a|..] == b
  {}

  lemma ReadsAnnouncement(s: CString, names: Table, rest: seq<Byte>)
    requires |names| < INT32_LIMIT
    ensures ReadMsg(Announcement(|names|, s) + rest, names) == Some((Announced(|names|, s), rest))
  {
    hide IntBytes, IntOf, ReadRecord;
    Int32Exact(-1);
    Int32Exact(|names|);
    Int32Exact(|s|);
    var i, n := IntBytes(|names|, 4), IntBytes(|s|, 4);
    assert Announcement(|names|, s) + rest == IntBytes(-1, 4) + (i + n + (s + rest));
    Cut(IntBytes(-1, 4), i + n + (s + rest));
    ReadsString(i, n, s, rest, names);
  }

  lemma ReadsString(i: seq<Byte>, n: seq<Byte>, s: CString, rest: seq<Byte>, names: Table)
    requires |i| == |n| == 4 && IntOf(i) == |names| && IntOf(n) == |s|
    ensures ReadString(i + n + (s + rest), names) == Some((Announced(|names|, s), rest))
  {
    hide IntOf;
    var all := i + n + (s + rest);
    assert all[..4] == i && all[4..8] == n && all[8..8 + |s|] == s && all[8 + |s|..] == rest;
  }

  lemma ReadsRecord(r: Rec, names: Table, rest: seq<Byte>)
    requires WellTyped(r, names) && Names(r.fields, names) && |names| <= INT32_LIMIT
    ensures ReadMsg(FieldsBytes(RecFields(r), names) + rest, names) == Some((RecordedMsg(r), rest))
  {
    hide IntBytes, IntOf, SchemaOf, FieldsBytes, ReadString, DecodeFields, Kinds, Views, AllProper, Names;
    var time, body := IntBytes(r.time, 8), FieldsBytes(r.fields, names) + rest;
    PrefixBytes(r, names);
    Int32Exact(r.typeId);
    IntRoundTrip(r.time, 8);
    RecordRoundTrip(r.fields, names, rest);
    assert FieldsBytes(RecFields(r), names) + rest == IntBytes(r.typeId, 4) + (time + body);
    Cut(IntBytes(r.typeId, 4), time + body);
    Cut(time, body);
  }

  lemma PrefixBytes(r: Rec, names: Table)
    ensures FieldsBytes(RecFields(r), names) ==
            IntBytes(r.typeId, 4) + IntBytes(r.time, 8) + FieldsBytes(r.fields, names)
  {}

  lemma DecodeStep(s: seq<Byte>, names: Table, m: Msg, rest: seq<Byte>)
    requires s != [] && ReadMsg(s, names) == Some((m, rest))
    ensures Decode(s, names) == Prepend([m], Decode(rest, Learn(m, names)))
  {
    hide ReadMsg;
  }

  lemma PrependTwice(a: seq<Msg>, b: seq<Msg>, rest: Option<seq<Msg>>)
    ensures Prepend(a, Prepend(b, rest)) == Prepend(a + b, rest)
    ensures Prepend([], rest) == rest
  {
    if rest.Some? {
      assert a + (b + rest.value) == a + b + rest.value && [] + rest.value == rest.value;
    }
  }

  lemma {:induction false} ReadsAnnouncements(ss: seq<CString>, names: Table, rest: seq<Byte>)
    requires |names| + |ss| <= INT32_LIMIT
    ensures Decode(Announcements(ss, |names|) + rest, names) ==
            Prepend(AnnouncedMsgs(ss, |names|), Decode(rest, names + ss))
    decreases |ss|
  {
    hide Announcement, ReadMsg, Decode, Prepend;
    PrependTwice([], [], Decode(rest, names));
    if ss == [] {
      assert Announcements(ss, |names|) + rest == rest && names + ss == names;
    } else {
      var more := names + [ss[0]];
      var tail := Announcements(ss[1..], |names| + 1) + rest;
      var first := Announcement(|names|, ss[0]);
      AnnouncementLong(|names|, ss[0]);
      assert Announcements(ss, |names|) + rest == first + tail;
      ReadsAnnouncement(ss[0], names, tail);
      DecodeStep(first + tail, names, Announced(|names|, ss[0]), tail);
      ReadsAnnouncements(ss[1..], more, rest);
      assert more + ss[1..] == names + ss;
      PrependTwice([Announced(|names|, ss[0])], AnnouncedMsgs(ss[1..], |names| + 1), Decode(rest, names + ss));
    }
  }

  lemma AnnouncementLong(id: int, s: CString)
    ensures |Announcement(id, s)| == 12 + |s|
  {}

  lemma {:induction false} ReadsRecords(rs: seq<Rec>, names: Table, rest: seq<Byte>)
    requires |names| <= INT32_LIMIT && forall r <- rs :: WellTyped(r, names) && Names(r.fields, names)
    ensures Decode(FieldsBytes(BatchFields(rs), names) + rest, names) == Prepend(RecordedMsgs(rs), Decode(rest, names))
  {
    hide FieldsBytes, ReadMsg, RecFields, Decode, Prepend;
    PrependTwice([], [], Decode(rest, names));
    if rs == [] {
      NoFieldsNoBytes(names);
      assert FieldsBytes(BatchFields(rs), names) + rest == rest;
    } else {
      var r := rs[0];
      var tail := FieldsBytes(BatchFields(rs[1..]), names) + rest;
      FieldsBytesAppend(RecFields(r), BatchFields(rs[1..]), names);
      assert FieldsBytes(BatchFields(rs), names) + rest == FieldsBytes(RecFields(r), names) + tail;
      ReadsRecord(r, names, tail);
      PrefixBytes(r, names);
      DecodeStep(FieldsBytes(RecFields(r), names) + tail, names, RecordedMsg(r), tail);
      PrependTwice([RecordedMsg(r)], RecordedMsgs(rs[1..]), Decode(rest, names));
      ReadsRecords(rs[1..], names, rest);
    }
  }

  lemma NoFieldsNoBytes(names: Table)
    ensures FieldsBytes([], names) == []
  {}

  /** One batch decodes to its announcements and records, and leaves the reader with the writer's table. */
  lemma ReadsBatch(rs: seq<Rec>, out: Out, rest: seq<Byte>)
    requires |SendBatch(rs, out).table| <= INT32_LIMIT
    requires forall r <- rs :: WellTyped(r, out.table)
    ensures out.wire <= SendBatch(rs, out).wire && out.table <= SendBatch(rs, out).table
    ensures Decode(SendBatch(rs, out).wire[|out.wire|..] + rest, out.table) ==
            Prepend(BatchMsgs(rs, out.table), Decode(rest, SendBatch(rs, out).table))
  {
    hide FieldsBytes, Decode, PutAll, NewNames, Announcements, SchemaOf, RecordedMsgs, AnnouncedMsgs, Prepend;
    var fs, start := BatchFields(rs), out.(buffer := []);
    var end := PutAll(fs, start);
    var ss := NewNames(fs, out.table);
    PutAllAnnounces(fs, start);
    PutAllNames(fs, start);
    PutAllFills(fs, start);
    BatchNames(rs, end.table);
    var tail := FieldsBytes(fs, end.table) + rest;
    assert SendBatch(rs, out).wire[|out.wire|..] + rest == Announcements(ss, |out.table|) + tail;
    ReadsAnnouncements(ss, out.table, tail);
    forall r <- rs
      ensures WellTyped(r, end.table)
    {
      assert WellTyped(r, out.table);
    }
    ReadsRecords(rs, end.table, rest);
    PrependTwice(AnnouncedMsgs(ss, |out.table|), RecordedMsgs(rs), Decode(rest, end.table));
  }

  lemma {:induction false} BatchNames(rs: seq<Rec>, names: Table)
    requires Names(BatchFields(rs), names)
    ensures forall r <- rs :: Names(r.fields, names)
  {
    if rs != [] {
      var a, b := RecFields(rs[0]), BatchFields(rs[1..]);
      assert forall f <- rs[0].fields :: f in a;
      assert forall f <- a :: f in a + b;
      assert forall f <- b :: f in a + b;
      BatchNames(rs[1..], names);
    }
  }
}
