/** The binary format: fields, records, string announcements. */
module Wire {
  import opened Words
  import opened Bytes
  import opened Interning

  datatype Option<+T> = None | Some(value: T)

  /** The kinds of record fields. */
  datatype Kind = Boolean | Int8 | Int16 | Int32 | Int64 | Text

  function Width(k: Kind): (w: nat)
    ensures 1 <= w <= 8
  {
    match k
    case Boolean => 1
    case Int8 => 1
    case Int16 => 2
    case Int32 => 4
    case Int64 => 8
    case Text => 4
  }

  datatype Field = Num(kind: Kind, v: int) | Str(s: CString)

  predicate Proper(f: Field) { f.Num? ==> f.kind != Text }

  function KindOf(f: Field): Kind { if f.Num? then f.kind else Text }

  /** What a reader sees of a field: numbers as wide as their kind. */
  function View(f: Field): Field
  {
    if f.Num? then Num(f.kind, WireView(f.v, Width(f.kind))) else f
  }

  function Kinds(fs: seq<Field>): seq<Kind> { seq(|fs|, i requires 0 <= i < |fs| => KindOf(fs[i])) }

  function Views(fs: seq<Field>): seq<Field> { seq(|fs|, i requires 0 <= i < |fs| => View(fs[i])) }

  ghost predicate AllProper(fs: seq<Field>) { forall f <- fs :: Proper(f) }

  function TotalWidth(ks: seq<Kind>): nat
  {
    if ks == [] then 0 else Width(ks[0]) + TotalWidth(ks[1..])
  }

  /** What the serializers work on: the string table, the bytes written to the socket, the filled part of the buffer. */
  datatype Out = Out(table: Table, wire: seq<Byte>, buffer: seq<Byte>)

  /** The bytes kieker_controller_send_string writes. */
  function Announcement(id: int, s: CString): seq<Byte>
  {
    IntBytes(-1, 4) + IntBytes(id, 4) + IntBytes(|s|, 4) + s
  }

  /** Gives `s` an id, announcing it when it is new. */
  function InternInto(s: CString, out: Out): Out
  {
    if s in out.table then out
    else out.(table := out.table + [s], wire := out.wire + Announcement(|out.table|, s))
  }

  /** Serializes one field. */
  function Put(f: Field, out: Out): Out
  {
    match f
    case Num(k, v) => out.(buffer := out.buffer + IntBytes(v, Width(k)))
    case Str(s) =>
      var next := InternInto(s, out);
      next.(buffer := next.buffer + IntBytes(IndexOf(next.table, s), 4))
  }

  function PutAll(fs: seq<Field>, out: Out): Out
  {
    if fs == [] then out else PutAll(fs[1..], Put(fs[0], out))
  }

  function Send(out: Out): Out
  {
    Out(out.table, out.wire + out.buffer, [])
  }

  // The same in closed form: names first, then bytes that depend on the final table only.

  function NewNames(fs: seq<Field>, table: Table): (ss: seq<CString>)
  {
    if fs == [] then []
    else if fs[0].Str? && fs[0].s !in table then [fs[0].s] + NewNames(fs[1..], table + [fs[0].s])
    else NewNames(fs[1..], table)
  }

  function Announcements(ss: seq<CString>, from: nat): seq<Byte>
  {
    if ss == [] then [] else Announcement(from, ss[0]) + Announcements(ss[1..], from + 1)
  }

  function FieldBytes(f: Field, table: Table): (s: seq<Byte>)
    ensures |s| == Width(KindOf(f))
  {
    match f
    case Num(k, v) => IntBytes(v, Width(k))
    case Str(s) => IntBytes(IndexOf(table, s), 4)
  }

  function FieldsBytes(fs: seq<Field>, table: Table): seq<Byte>
  {
    if fs == [] then [] else FieldBytes(fs[0], table) + FieldsBytes(fs[1..], table)
  }

  ghost predicate Names(fs: seq<Field>, table: Table)
  {
    forall f <- fs :: f.Str? ==> f.s in table
  }

  lemma {:induction false} PutAllAnnounces(fs: seq<Field>, out: Out)
    ensures var ss, r := NewNames(fs, out.table), PutAll(fs, out);
            r.table == out.table + ss && r.wire == out.wire + Announcements(ss, |out.table|)
  {
    hide IntBytes, Announcement, Width, IndexOf;
    if fs != [] {
      var next := Put(fs[0], out);
      PutAllAnnounces(fs[1..], next);
      if next.table != out.table {
        var s := fs[0].s;
        var rest := NewNames(fs[1..], next.table);
        assert ([s] + rest)[1..] == rest;
      }
    }
  }

  lemma {:induction false} PutAllNames(fs: seq<Field>, out: Out)
    ensures Names(fs, PutAll(fs, out).table)
  {
    hide IntBytes, Announcement, Width, IndexOf;
    if fs != [] {
      var next, r := Put(fs[0], out), PutAll(fs, out);
      PutAllAnnounces(fs[1..], next);
      PutAllNames(fs[1..], next);
      assert fs == [fs[0]] + fs[1..];
      if fs[0].Str? {
        assert fs[0].s in next.table && next.table <= r.table;
      }
    }
  }

  lemma {:induction false} PutAllFills(fs: seq<Field>, out: Out)
    ensures PutAll(fs, out).buffer == out.buffer + FieldsBytes(fs, PutAll(fs, out).table)
  {
    hide IntBytes, Announcement, Width, IndexOf;
    if fs != [] {
      var f, next, r := fs[0], Put(fs[0], out), PutAll(fs, out);
      PutAllFills(fs[1..], next);
      if f.Str? {
        PutAllAnnounces(fs[1..], next);
        IdIsStable(next.table, r.table, f.s);
      }
      assert next.buffer == out.buffer + FieldBytes(f, r.table);
    }
  }

  /** A record's size depends on the kinds of its fields only. */
  lemma {:induction false} FieldsWidth(fs: seq<Field>, table: Table)
    ensures |FieldsBytes(fs, table)| == TotalWidth(Kinds(fs))
  {
    if fs != [] {
      FieldsWidth(fs[1..], table);
      assert Kinds(fs)[1..] == Kinds(fs[1..]);
    }
  }

  lemma {:induction false} FieldsBytesAppend(a: seq<Field>, b: seq<Field>, table: Table)
    ensures FieldsBytes(a + b, table) == FieldsBytes(a, table) + FieldsBytes(b, table)
  {
    if a == [] {
      assert a + b == b;
    } else {
      assert (a + b)[1..] == a[1..] + b;
      FieldsBytesAppend(a[1..], b, table);
    }
  }

  lemma {:induction false} PutAllAppend(a: seq<Field>, b: seq<Field>, out: Out)
    ensures PutAll(a + b, out) == PutAll(b, PutAll(a, out))
  {
    if a == [] {
      assert a + b == b;
    } else {
      assert (a + b)[1..] == a[1..] + b;
      PutAllAppend(a[1..], b, Put(a[0], out));
    }
  }

  // Reading back.

  /** Reads one field of kind `k`; a string field needs an id announced before. */
  function DecodeField(k: Kind, s: seq<Byte>, names: Table): Option<Field>
    requires |s| == Width(k)
  {
    if k != Text then Some(Num(k, IntOf(s)))
    else if 0 <= IntOf(s) < |names| then Some(Str(names[IntOf(s)])) else None
  }

  function DecodeFields(ks: seq<Kind>, s: seq<Byte>, names: Table): (r: Option<(seq<Field>, seq<Byte>)>)
    ensures r.Some? ==> |r.value.1| + TotalWidth(ks) == |s|
  {
    if ks == [] then Some(([], s))
    else
      var w := Width(ks[0]);
      if |s| < w then None
      else
        match DecodeField(ks[0], s[..w], names)
        case None => None
        case Some(f) =>
          match DecodeFields(ks[1..], s[w..], names)
          case None => None
          case Some(r) => Some(([f] + r.0, r.1))
  }

  /** Ids and lengths fit the signed 32-bit fields they are written to. */
  const INT32_LIMIT := 0x8000_0000

  lemma Base4()
    ensures Base(4) == 0x1_0000_0000 && Base(8) == 0x1_0000_0000_0000_0000
  {}

  lemma Int32Exact(v: int)
    ensures IntOf(IntBytes(v, 4)) == v <==> -INT32_LIMIT <= v < INT32_LIMIT
  {
    Base4();
    IntRoundTrip(v, 4);
    WireViewExact(v, 4);
  }

  lemma FieldRoundTrip(f: Field, table: Table)
    requires Proper(f) && (f.Str? ==> f.s in table) && |table| <= INT32_LIMIT
    ensures DecodeField(KindOf(f), FieldBytes(f, table), table) == Some(View(f))
  {
    match f
    case Num(k, v) => IntRoundTrip(v, Width(k));
    case Str(s) => Int32Exact(IndexOf(table, s));
  }

  /** The codec round trip for any schema, at any place in the stream. */
  lemma {:induction false} RecordRoundTrip(fs: seq<Field>, table: Table, rest: seq<Byte>)
    requires AllProper(fs) && Names(fs, table) && |table| <= INT32_LIMIT
    ensures DecodeFields(Kinds(fs), FieldsBytes(fs, table) + rest, table) == Some((Views(fs), rest))
  {
    hide FieldBytes, DecodeField, View, Width, KindOf;
    if fs == [] {
      assert FieldsBytes(fs, table) + rest == rest;
    } else {
      var f := fs[0];
      var w := Width(KindOf(f));
      var s := FieldsBytes(fs, table) + rest;
      var tail := FieldsBytes(fs[1..], table) + rest;
      FieldRoundTrip(f, table);
      RecordRoundTrip(fs[1..], table, rest);
      assert s == FieldBytes(f, table) + tail;
      assert s[..w] == FieldBytes(f, table) && s[w..] == tail;
      assert Kinds(fs)[0] == KindOf(f) && Kinds(fs)[1..] == Kinds(fs[1..]);
      assert Views(fs) == [View(f)] + Views(fs[1..]);
    }
  }

  /** A reader gets the very values written exactly when every number is in the range of its field. */
  lemma ViewsExact(fs: seq<Field>)
    ensures Views(fs) == fs <==> forall i :: 0 <= i < |fs| && fs[i].Num? ==> InRange(fs[i].v, Width(fs[i].kind))
  {
    forall i | 0 <= i < |fs| && fs[i].Num?
      ensures View(fs[i]) == fs[i] <==> InRange(fs[i].v, Width(fs[i].kind))
    {
      WireViewExact(fs[i].v, Width(fs[i].kind));
    }
    if Views(fs) == fs {
      forall i | 0 <= i < |fs| && fs[i].Num? ensures InRange(fs[i].v, Width(fs[i].kind)) {
        assert Views(fs)[i] == fs[i];
      }
    }
  }
}
