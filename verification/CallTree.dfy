/** Call trees: the shape of a trace, and its recovery from the calls. */
module CallTree {
  import opened Interning
  import opened Wire
  import opened Decoder
  import opened Probes
  import opened ThreadView

  /** The calls below one point: a first call, the calls made inside it, the calls after it. */
  datatype Forest = Nothing | Frame(cls: CString, op: CString, inside: Forest, later: Forest)

  function Size(f: Forest): nat
  {
    match f case Nothing => 0 case Frame(_, _, inside, later) => 1 + Size(inside) + Size(later)
  }

  function Roots(f: Forest): nat
  {
    match f case Nothing => 0 case Frame(_, _, _, later) => 1 + Roots(later)
  }

  /** The probe calls of a properly nested execution. */
  function Marks(f: Forest): (ms: seq<Mark>)
    ensures |ms| == 2 * Size(f)
  {
    match f
    case Nothing => []
    case Frame(cls, op, inside, later) => [Mark(true, cls, op)] + Marks(inside) + [Mark(false, cls, op)] + Marks(later)
  }

  /** Rebuilds the calls up to the first unmatched leave. */
  function Parse(ms: seq<Mark>): (r: (Forest, seq<Mark>))
    ensures |r.1| <= |ms| && (r.1 != [] ==> !r.1[0].enter)
    decreases |ms|
  {
    if ms == [] || !ms[0].enter then (Nothing, ms)
    else
      var inner := Parse(ms[1..]);
      var outer := Parse(if inner.1 == [] then [] else inner.1[1..]);
      (Frame(ms[0].cls, ms[0].op, inner.0, outer.0), outer.1)
  }

  /** The call tree is recoverable: parsing the probe calls of a forest gives back the forest. */
  lemma {:induction false} ParseInvertsMarks(f: Forest, tail: seq<Mark>)
    requires tail == [] || !tail[0].enter
    ensures Parse(Marks(f) + tail) == (f, tail)
  {
    match f
    case Nothing =>
      assert Marks(f) + tail == tail;
    case Frame(cls, op, inside, later) =>
      var rest := FrameMarks(f, tail);
      ParseInvertsMarks(inside, rest);
      ParseInvertsMarks(later, tail);
  }

  /** The calls of a frame: entering, the calls inside, leaving, the later calls. */
  lemma FrameMarks(f: Forest, tail: seq<Mark>) returns (rest: seq<Mark>)
    requires f.Frame?
    ensures var ms := Marks(f) + tail;
            ms != [] && ms[0] == Mark(true, f.cls, f.op) && ms[1..] == Marks(f.inside) + rest
    ensures rest != [] && rest[0] == Mark(false, f.cls, f.op) && rest[1..] == Marks(f.later) + tail
  {
    rest := [Mark(false, f.cls, f.op)] + (Marks(f.later) + tail);
    assert Marks(f) + tail == [Mark(true, f.cls, f.op)] + (Marks(f.inside) + rest);
  }

  lemma {:induction false} MarksNeverUnder(f: Forest, tail: seq<Mark>, depth: nat)
    ensures NeverUnder(Marks(f) + tail, depth) <==> NeverUnder(tail, depth)
  {
    match f
    case Nothing =>
      assert Marks(f) + tail == tail;
    case Frame(cls, op, inside, later) =>
      var rest := FrameMarks(f, tail);
      MarksNeverUnder(inside, rest, depth + 1);
      MarksNeverUnder(later, tail, depth);
  }

  /** End to end: whatever the other threads do meanwhile, a reader of the bytes rebuilds the call trees of a thread
      whose calls are properly nested. */
  lemma ReaderRebuildsCallTrees(val: int, cs: seq<Call>, host: CString, thread: int, f: Forest)
    requires |Run(Start(val), cs, host).out.table| <= INT32_LIMIT && IdsFit(val, cs)
    requires CallsOf(cs, thread) == Marks(f)
    ensures var ms := Decode(Run(Start(val), cs, host).out.wire, []);
            ms.Some? && Parse(ReadThread(ms.value, thread, {})) == (f, [])
  {
    hide Run, Decode, ReadThread, CallsOf;
    ReaderRecoversThread(val, cs, host, thread);
    assert Marks(f) + [] == Marks(f);
    MarksNeverUnder(f, [], 0);
    ParseInvertsMarks(f, []);
  }
}
