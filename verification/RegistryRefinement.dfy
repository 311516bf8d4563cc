/** The lock sections of kieker_trace_get and kieker_trace_remove against the registry as the probes see it: a trace id
    by thread id. */
module RegistryRefinement {
  import opened RegistrySteps
  import opened Probes
  import opened NonInterference

  ghost predicate OneEntryPerKey(s: State)
  {
    forall r, q :: r in s.entries && q in s.entries && r in s.live && q in s.live && r != q ==>
      s.live[r].key != s.live[q].key
  }

  /** The table: the trace id found under each thread id. */
  ghost function View(s: State): map<int, int>
    requires OneEntryPerKey(s)
  {
    map r | r in s.entries && r in s.live :: s.live[r].key := s.live[r].traceId
  }

  /** The states in which the registry is safe to use. */
  ghost predicate Fits(s: State)
    ensures Fits(s) ==> OneEntryPerKey(s)
  {
    hide Inv, DistinctLiveIds;
    assert Inv(s) && DistinctLiveIds(s) ==> OneEntryPerKey(s) by {
      if Inv(s) && DistinctLiveIds(s) { InvIsSafe(s); }
    }
    Inv(s) && DistinctLiveIds(s)
  }

  predicate At(s: State, t: Thread, pc: Pc) { t in s.pcs && s.pcs[t] == pc }

  /** What is found under an id is an entry's. */
  lemma Found(s: State, id: int)
    requires OneEntryPerKey(s)
    ensures id in View(s) <==> exists r :: r in s.entries && r in s.live && s.live[r].key == id
    ensures forall r :: r in s.entries && r in s.live && s.live[r].key == id ==>
              id in View(s) && View(s)[id] == s.live[r].traceId
  {}

  lemma SameView(s: State, s': State)
    requires OneEntryPerKey(s) && s'.entries == s.entries
    requires forall r :: r in s.entries ==> (r in s'.live <==> r in s.live) && (r in s.live ==> s'.live[r] == s.live[r])
    ensures OneEntryPerKey(s') && View(s') == View(s)
  {}

  lemma MoreView(s: State, s': State, r: Ref)
    requires OneEntryPerKey(s) && r in s.live && s'.live == s.live && s'.entries == s.entries + {r}
    requires s.live[r].key !in View(s)
    ensures OneEntryPerKey(s') && View(s') == View(s)[s.live[r].key := s.live[r].traceId]
  {
    hide View;
    forall id { Found(s, id); }
    assert OneEntryPerKey(s');
    var m := View(s)[s.live[r].key := s.live[r].traceId];
    forall id
      ensures (id in View(s') <==> id in m) && (id in m ==> View(s')[id] == m[id])
    {
      Found(s', id);
    }
    assert View(s') == m;
  }

  lemma LessView(s: State, s': State, r: Ref)
    requires OneEntryPerKey(s) && r in s.live && r in s.entries && s'.live == s.live && s'.entries == s.entries - {r}
    ensures OneEntryPerKey(s') && View(s') == View(s) - {s.live[r].key}
  {
    assert OneEntryPerKey(s');
  }

  /** A thread without an entry finds nothing under its id. */
  lemma OwnIdMissing(s: State, t: Thread)
    requires Fits(s) && Alive(s, t)
    ensures t.id in View(s) <==> HasEntry(s, t)
  {
    hide View;
    Found(s, t.id);
    forall r | r in s.entries && r in s.live && s.live[r].key == t.id
      ensures s.live[r].maker == t
    {
      EntryOfLiveThread(s, r);
    }
    forall r | r in s.entries && r in s.live && s.live[r].maker == t
      ensures s.live[r].key == t.id
    {
      EntryOfLiveThread(s, r);
    }
  }

  // The sections one by one, whatever other threads do in between.

  lemma NextFits(s: State, s': State, t: Thread, a: Action)
    requires Fits(s) && t in s.pcs && !a.Exit? && Next(s, s', t, a)
    ensures Fits(s')
  {
    hide Inv, HasEntry;
    InvKept(s, s', t, a);
    assert s'.pcs.Keys == s.pcs.Keys;
    forall u, v | Alive(s', u) && Alive(s', v) && u != v
      ensures u.id != v.id
    {
      assert Alive(s, u) && Alive(s, v);
    }
  }

  /** kieker_trace_find: the read section changes nothing but tells the thread whether it has an entry. */
  lemma FindView(s: State, s': State, t: Thread)
    requires Fits(s) && At(s, t, Idle) && Next(s, s', t, Find)
    ensures Fits(s') && s'.live == s.live && s'.entries == s.entries && s'.nextId == s.nextId
    ensures s'.pcs == s.pcs[t := s'.pcs[t]]
    ensures s'.pcs[t].Holds? <==> t.id in View(s)
    ensures !s'.pcs[t].Holds? ==> s'.pcs[t] == Missed
    ensures s'.pcs[t].Holds? ==> Own(s', t, s'.pcs[t].ref) && s'.live[s'.pcs[t].ref].traceId == View(s)[t.id]
  {
    hide View, Inv;
    NextFits(s, s', t, Find);
    Found(s, t.id);
    OwnIdMissing(s, t);
    if s'.pcs[t].Holds? {
      EntryOfLiveThread(s, s'.pcs[t].ref);
      OwnEntry(s', t);
    }
  }

  /** `r` is the entry of `t`: listed under its id and made by it. */
  ghost predicate Own(s: State, t: Thread, r: Ref)
  {
    r in s.entries && r in s.live && s.live[r].key == t.id && s.live[r].maker == t
  }

  lemma OwnEntry(s: State, t: Thread)
    requires Fits(s) && t in s.pcs && s.pcs[t].Holds?
    ensures Own(s, t, s.pcs[t].ref)
  {
    assert PcFits(s, t, s.pcs[t]);
  }

  /** Creating an object: the next trace id, and nothing listed yet. */
  lemma CreateView(s: State, s': State, t: Thread)
    requires Fits(s) && At(s, t, Missed) && Next(s, s', t, Create)
    ensures Fits(s') && s'.entries == s.entries && s'.nextId == s.nextId + 1 && s'.pcs == s.pcs[t := s'.pcs[t]]
    ensures s'.pcs[t].Made? && var r := s'.pcs[t].ref;
              r !in s.live && s'.live == s.live[r := Object(t.id, t, s.nextId)]
    ensures t.id !in View(s) && View(s') == View(s)
  {
    hide View, Inv, OneEntryPerKey;
    NextFits(s, s', t, Create);
    OwnIdMissing(s, t);
    assert PcFits(s, t, Missed) by { PositionFits(s, t); }
    var r :| r !in s.live && s' == Created(s, t, r);
    ListedLive(s);
    SameView(s, s');
  }

  lemma PositionFits(s: State, t: Thread)
    requires Fits(s) && t in s.pcs
    ensures PcFits(s, t, s.pcs[t])
  {}

  lemma ListedLive(s: State)
    requires Fits(s)
    ensures forall r :: r in s.entries ==> r in s.live
  {}

  /** The write section of kieker_trace_get lists the object under the thread's id. */
  lemma InsertView(s: State, s': State, t: Thread, r: Ref)
    requires Fits(s) && At(s, t, Made(r)) && Next(s, s', t, Insert)
    ensures Fits(s') && s'.live == s.live && s'.nextId == s.nextId && s'.pcs == s.pcs[t := Holds(r)]
    ensures r !in s.entries && s'.entries == s.entries + {r} && Own(s', t, r)
    ensures View(s') == View(s)[t.id := s.live[r].traceId]
  {
    hide View, Inv, OneEntryPerKey;
    NextFits(s, s', t, Insert);
    OwnIdMissing(s, t);
    PositionFits(s, t);
    MadeKey(s, r);
    MoreView(s, s', r);
  }

  lemma MadeKey(s: State, r: Ref)
    requires Fits(s) && r in s.live
    ensures s.live[r].key == s.live[r].maker.id
  {}

  /** The write section of kieker_trace_remove takes the entry out of the table. */
  lemma UnlinkView(s: State, s': State, t: Thread, r: Ref)
    requires Fits(s) && At(s, t, Holds(r)) && Next(s, s', t, Unlink)
    ensures Fits(s') && s'.live == s.live && s'.nextId == s.nextId && s'.pcs == s.pcs[t := Unlinked(r)]
    ensures r in s.entries && s'.entries == s.entries - {r}
    ensures View(s') == View(s) - {t.id}
  {
    hide View, Inv, OneEntryPerKey;
    NextFits(s, s', t, Unlink);
    OwnEntry(s, t);
    LessView(s, s', r);
  }

  /** What is freed is no longer live, and was in the table no more. */
  lemma FreeView(s: State, s': State, t: Thread, r: Ref)
    requires Fits(s) && At(s, t, Unlinked(r)) && Next(s, s', t, Free)
    ensures Fits(s') && s'.live == s.live - {r} && s'.entries == s.entries && s'.nextId == s.nextId
    ensures s'.pcs == s.pcs[t := Idle] && r in s.live && r !in s.entries && View(s') == View(s)
  {
    hide View, Inv, OneEntryPerKey;
    NextFits(s, s', t, Free);
    PositionFits(s, t);
    SameView(s, s');
  }

  /** A probe done with its trace leaves the registry as it is. */
  lemma ReleaseView(s: State, s': State, t: Thread, r: Ref)
    requires Fits(s) && At(s, t, Holds(r)) && Next(s, s', t, Release)
    ensures Fits(s') && s' == s.(pcs := s.pcs[t := Idle])
  {
    NextFits(s, s', t, Release);
  }

  /** A thread that starts or ends touches nothing but its own position. */
  lemma StartOrExitView(s: State, s': State, t: Thread, a: Action)
    requires OneEntryPerKey(s) && Next(s, s', t, a) && (a.Start? || a.Exit?)
    ensures s'.live == s.live && s'.entries == s.entries && s'.nextId == s.nextId
    ensures a.Start? <==> t !in s.pcs
    ensures s'.pcs == s.pcs[t := if a.Start? then Idle else Ended] && (a.Exit? ==> At(s, t, Idle))
    ensures OneEntryPerKey(s') && View(s') == View(s)
  {
    hide View;
    SameView(s, s');
  }

  // The functions, run without interruption.

  predicate Holding(s: State, t: Thread) { t in s.pcs && s.pcs[t].Holds? }

  /** kieker_trace_get: a hit, or a miss, a new object and its insertion. */
  ghost predicate GetRun(s: State, s': State, t: Thread)
  {
    || (Next(s, s', t, Find) && Holding(s', t))
    || exists s1, s2 :: Next(s, s1, t, Find) && !Holding(s1, t) && Next(s1, s2, t, Create) && Next(s2, s', t, Insert)
  }

  /** kieker_trace_remove. */
  ghost predicate RemoveRun(s: State, s': State, t: Thread)
  {
    exists s1 :: Next(s, s1, t, Unlink) && Next(s1, s', t, Free)
  }

  /** kieker_trace_get gives the registry with the thread's entry: the one it had, or a new one with the next id. */
  lemma GetRefines(s: State, s': State, t: Thread)
    requires Fits(s) && At(s, t, Idle) && GetRun(s, s', t)
    ensures Fits(s') && View(s') == if t.id in View(s) then View(s) else View(s)[t.id := s.nextId]
    ensures s'.nextId == if t.id in View(s) then s.nextId else s.nextId + 1
    ensures Holding(s', t) && s'.pcs == s.pcs[t := s'.pcs[t]]
    ensures Own(s', t, s'.pcs[t].ref) && s'.live[s'.pcs[t].ref].traceId == View(s')[t.id]
    ensures t.id in View(s) ==> s'.live == s.live && s'.entries == s.entries
    ensures t.id !in View(s) ==> s'.pcs[t].ref !in s.live && s'.entries == s.entries + {s'.pcs[t].ref}
                                 && s'.live == s.live[s'.pcs[t].ref := Object(t.id, t, s.nextId)]
  {
    hide Next, View, Fits, Own;
    if Next(s, s', t, Find) && Holding(s', t) {
      FindView(s, s', t);
      SameView(s, s');
    } else {
      var s1, s2 :| Next(s, s1, t, Find) && !Holding(s1, t) && Next(s1, s2, t, Create) && Next(s2, s', t, Insert);
      FindView(s, s1, t);
      SameView(s, s1);
      CreateView(s1, s2, t);
      InsertView(s2, s', t, s2.pcs[t].ref);
    }
  }

  /** kieker_trace_remove gives the registry without the thread's entry, and frees the object. */
  lemma RemoveRefines(s: State, s': State, t: Thread, r: Ref)
    requires Fits(s) && At(s, t, Holds(r)) && RemoveRun(s, s', t)
    ensures Fits(s') && View(s') == View(s) - {t.id} && s'.nextId == s.nextId
    ensures r in s.entries && s'.entries == s.entries - {r} && r in s.live && s'.live == s.live - {r}
    ensures s'.pcs == s.pcs[t := Idle]
  {
    hide Next, View, Fits;
    var s1 :| Next(s, s1, t, Unlink) && Next(s1, s', t, Free);
    UnlinkView(s, s1, t, r);
    FreeView(s1, s', t, r);
  }

  // Both can always be run.

  lemma UnusedRef(refs: set<Ref>) returns (r: Ref)
    ensures r !in refs
  {
    var n := HighestRef(refs);
    r := n + 1;
  }

  lemma {:induction false} HighestRef(refs: set<Ref>) returns (n: nat)
    ensures forall r :: r in refs ==> r <= n
    decreases refs
  {
    n := 0;
    if refs != {} {
      var r :| r in refs;
      n := HighestRef(refs - {r});
      if r > n { n := r; }
      assert forall q :: q in refs ==> q == r || q in refs - {r};
    }
  }

  lemma GetCanRun(s: State, t: Thread) returns (s': State)
    requires At(s, t, Idle)
    ensures GetRun(s, s', t)
  {
    if r :| r in s.entries && r in s.live && s.live[r].key == t.id {
      s' := s.(pcs := s.pcs[t := Holds(r)]);
    } else {
      var r := UnusedRef(s.live.Keys);
      var s1 := s.(pcs := s.pcs[t := Missed]);
      var s2 := Created(s1, t, r);
      s' := s2.(entries := s2.entries + {r}, pcs := s2.pcs[t := Holds(r)]);
      assert Next(s, s1, t, Find) && Next(s1, s2, t, Create) && Next(s2, s', t, Insert);
    }
  }

  lemma RemoveCanRun(s: State, t: Thread, r: Ref) returns (s': State)
    requires At(s, t, Holds(r))
    ensures RemoveRun(s, s', t)
  {
    var s1 := s.(entries := s.entries - {r}, pcs := s.pcs[t := Unlinked(r)]);
    s' := s1.(live := s1.live - {r}, pcs := s1.pcs[t := Idle]);
    assert Next(s, s1, t, Unlink) && Next(s1, s', t, Free);
  }

  // The registry of the probes.

  /** The trace ids of a registry. */
  function Ids(r: Registry): map<int, int> { map th <- r.traces :: r.traces[th].traceId }

  ghost predicate Agrees(s: State, r: Registry) { Fits(s) && View(s) == Ids(r) && s.nextId == r.nextId }

  /** The call ends with the thread in the registry no more. */
  predicate Retires(r: Registry, c: Call) { c.thread !in After(r, c).traces }

  /** One probe call: kieker_trace_get, and kieker_trace_remove if the call retires the trace. */
  ghost predicate CallRun(s: State, s': State, t: Thread, retires: bool)
  {
    exists s1 :: GetRun(s, s1, t) && if retires then RemoveRun(s1, s', t) else Next(s1, s', t, Release)
  }

  lemma IdsAfter(r: Registry, c: Call)
    ensures var g := if c.thread in r.traces then Ids(r) else Ids(r)[c.thread := r.nextId];
            Ids(After(r, c)) == if c.thread in After(r, c).traces then g else g - {c.thread}
    ensures After(r, c).nextId == if c.thread in r.traces then r.nextId else r.nextId + 1
  {}

  /** A probe call on the lock sections is a probe call on the registry. */
  lemma CallRefines(s: State, s': State, t: Thread, r: Registry, c: Call)
    requires Agrees(s, r) && At(s, t, Idle) && c.thread == t.id
    requires CallRun(s, s', t, Retires(r, c))
    ensures Agrees(s', After(r, c)) && s'.pcs == s.pcs
  {
    hide GetRun, RemoveRun, Next, View, Fits, Own, After;
    var retires := Retires(r, c);
    var s1 :| GetRun(s, s1, t) && if retires then RemoveRun(s1, s', t) else Next(s1, s', t, Release);
    GetRefines(s, s1, t);
    IdsAfter(r, c);
    if retires {
      RemoveRefines(s1, s', t, s1.pcs[t].ref);
    } else {
      ReleaseView(s1, s', t, s1.pcs[t].ref);
      SameView(s1, s');
    }
  }

  lemma CallCanRun(s: State, t: Thread, retires: bool) returns (s': State)
    requires Fits(s) && At(s, t, Idle)
    ensures CallRun(s, s', t, retires)
  {
    hide GetRun, RemoveRun, View, Fits, Own;
    var s1 := GetCanRun(s, t);
    GetRefines(s, s1, t);
    if retires {
      s' := RemoveCanRun(s1, t, s1.pcs[t].ref);
    } else {
      s' := s1.(pcs := s1.pcs[t := Idle]);
    }
  }

  /** The calls `cs`, by the threads `ts`, one after the other. */
  ghost predicate ProgramRun(s: State, s': State, ts: seq<Thread>, cs: seq<Call>, r: Registry)
    requires |ts| == |cs|
    decreases |cs|
  {
    if cs == [] then s' == s
    else exists s1 :: CallRun(s, s1, ts[0], Retires(r, cs[0]))
                      && ProgramRun(s1, s', ts[1..], cs[1..], After(r, cs[0]))
  }

  ghost predicate AllIdle(s: State, ts: seq<Thread>, cs: seq<Call>)
    requires |ts| == |cs|
  {
    forall i :: 0 <= i < |ts| ==> At(s, ts[i], Idle) && cs[i].thread == ts[i].id
  }

  /** Any run of probe calls, by any threads, on the lock sections is that run on the registry. */
  lemma {:induction false} ProgramRefines(s: State, s': State, ts: seq<Thread>, cs: seq<Call>, r: Registry)
    requires |ts| == |cs| && Agrees(s, r) && AllIdle(s, ts, cs) && ProgramRun(s, s', ts, cs, r)
    ensures Agrees(s', RegistryRun(r, cs)) && s'.pcs == s.pcs
    decreases |cs|
  {
    hide Agrees, CallRun, After;
    if cs != [] {
      var s1 :| CallRun(s, s1, ts[0], Retires(r, cs[0]))
                && ProgramRun(s1, s', ts[1..], cs[1..], After(r, cs[0]));
      CallRefines(s, s1, ts[0], r, cs[0]);
      ProgramRefines(s1, s', ts[1..], cs[1..], After(r, cs[0]));
    }
  }

  lemma {:induction false} ProgramCanRun(s: State, ts: seq<Thread>, cs: seq<Call>, r: Registry) returns (s': State)
    requires |ts| == |cs| && Agrees(s, r) && AllIdle(s, ts, cs)
    ensures ProgramRun(s, s', ts, cs, r)
    decreases |cs|
  {
    hide CallRun, After, View, Fits;
    if cs == [] {
      s' := s;
    } else {
      var retires := Retires(r, cs[0]);
      var s1 := CallCanRun(s, ts[0], retires);
      CallRefines(s, s1, ts[0], r, cs[0]);
      s' := ProgramCanRun(s1, ts[1..], cs[1..], After(r, cs[0]));
    }
  }
}
