/** The bytes under which the record types and the session are announced. */
module NameCodes {
  import opened Interning
  import opened Decoder
  import opened Probes
  import opened Stream

  /** The bytes `s` are the character codes of `name`. */
  predicate Spells(s: CString, name: string)
  {
    |s| == |name| && forall i :: 0 <= i < |s| ==> s[i] == name[i] as int
  }

  /** All characters are ASCII, and none is the terminator. */
  predicate Plain(name: string) { forall i :: 0 <= i < |name| ==> 0 < name[i] as int < 0x80 }

  lemma PlainSpelled(name: string)
    requires |name| <= MAX_STRING && Plain(name)
    ensures Spells(Ascii(name), name)
  {}

  lemma PlainJoined(name: string, a: string, b: string)
    requires name == a + b && Plain(a) && Plain(b)
    ensures Plain(name)
  {}

  lemma PlainParts()
    ensures Plain("kieker.common.record") && Plain(".flow.trace") && Plain(".flow.trace.operation")
    ensures Plain(".TraceMetadata") && Plain(".BeforeOperationEvent") && Plain(".AfterOperationEvent")
  {}

  lemma PlainPackage()
    ensures Plain("kieker.common.record.flow.trace.operation")
  {
    hide Plain;
    PlainParts();
    PlainJoined("kieker.common.record.flow.trace.operation", "kieker.common.record", ".flow.trace.operation");
  }

  lemma PlainMetadata()
    ensures Plain("kieker.common.record.flow.trace.TraceMetadata")
  {
    hide Plain;
    PlainParts();
    PlainJoined(".flow.trace.TraceMetadata", ".flow.trace", ".TraceMetadata");
    PlainJoined("kieker.common.record.flow.trace.TraceMetadata", "kieker.common.record", ".flow.trace.TraceMetadata");
  }

  lemma PlainBefore()
    ensures Plain("kieker.common.record.flow.trace.operation.BeforeOperationEvent")
  {
    hide Plain;
    PlainParts();
    PlainPackage();
    PlainJoined("kieker.common.record.flow.trace.operation.BeforeOperationEvent",
                "kieker.common.record.flow.trace.operation", ".BeforeOperationEvent");
  }

  lemma PlainAfter()
    ensures Plain("kieker.common.record.flow.trace.operation.AfterOperationEvent")
  {
    hide Plain;
    PlainParts();
    PlainPackage();
    PlainJoined("kieker.common.record.flow.trace.operation.AfterOperationEvent",
                "kieker.common.record.flow.trace.operation", ".AfterOperationEvent");
  }

  lemma MetadataSpelled()
    ensures Spells(TRACE_METADATA, "kieker.common.record.flow.trace.TraceMetadata")
  {
    hide Plain, Spells, Ascii;
    PlainMetadata();
    PlainSpelled("kieker.common.record.flow.trace.TraceMetadata");
  }

  lemma BeforeSpelled()
    ensures Spells(BEFORE_OPERATION, "kieker.common.record.flow.trace.operation.BeforeOperationEvent")
  {
    hide Plain, Spells, Ascii;
    PlainBefore();
    PlainSpelled("kieker.common.record.flow.trace.operation.BeforeOperationEvent");
  }

  lemma AfterSpelled()
    ensures Spells(AFTER_OPERATION, "kieker.common.record.flow.trace.operation.AfterOperationEvent")
  {
    hide Plain, Spells, Ascii;
    PlainAfter();
    PlainSpelled("kieker.common.record.flow.trace.operation.AfterOperationEvent");
  }

  /** The names are announced as they are written: every byte is the code of the character in its place. */
  lemma NamesSpelled()
    ensures |REGISTERED.table| == 3
    ensures Spells(REGISTERED.table[0], "kieker.common.record.flow.trace.TraceMetadata")
    ensures Spells(REGISTERED.table[1], "kieker.common.record.flow.trace.operation.BeforeOperationEvent")
    ensures Spells(REGISTERED.table[2], "kieker.common.record.flow.trace.operation.AfterOperationEvent")
    ensures Spells(NO_SESSION, "<no-session>")
  {
    hide Spells, Ascii;
    RegisteredTypes();
    MetadataSpelled();
    BeforeSpelled();
    AfterSpelled();
    SessionSpelled();
  }

  lemma SessionSpelled()
    ensures Spells(NO_SESSION, "<no-session>")
  {
    hide Spells, Ascii;
    assert Plain("<no-session>");
    PlainSpelled("<no-session>");
  }

  /** The names are ASCII, and end at their terminator and not before. */
  lemma NamesPlain()
    ensures Plain("kieker.common.record.flow.trace.TraceMetadata") && Plain("<no-session>")
    ensures Plain("kieker.common.record.flow.trace.operation.BeforeOperationEvent")
    ensures Plain("kieker.common.record.flow.trace.operation.AfterOperationEvent")
  {
    assert Plain("<no-session>");
    PlainMetadata();
    PlainBefore();
    PlainAfter();
  }
}
