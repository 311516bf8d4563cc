/** The trace registry under concurrency: kieker_trace_get and kieker_trace_remove as separate lock sections, and
    threads that start and end. */
module RegistrySteps {

  /** A thread: the cast of its `pthread_self()`, and a serial number that tells it from other threads of that id. */
  datatype Thread = Thread(id: int, serial: nat)

  /** Addresses of trace objects. */
  type Ref = nat

  /** A trace object: the key it is found under, the thread that made it, its trace id. */
  datatype Object = Object(key: int, maker: Thread, traceId: int)

  /** Where a thread stands between lock sections. */
  datatype Pc =
    | Idle                    // outside the registry functions
    | Missed                  // read section found nothing
    | Made(ref: Ref)          // object created, not yet inserted
    | Holds(ref: Ref)         // kieker_trace_get returned
    | Unlinked(ref: Ref)      // write section of kieker_trace_remove done, memory not yet freed
    | Ended                   // the thread is over

  /** The table is a set of entries: HASH_ADD_INT itself does not look for an entry with the same key.  `pcs` knows the
      threads that have started. */
  datatype State = State(live: map<Ref, Object>, entries: set<Ref>, pcs: map<Thread, Pc>, nextId: int)

  datatype Action = Start | Find | Create | Insert | Release | Unlink | Free | Exit

  ghost predicate Init(s: State)
  {
    s.live == map[] && s.entries == {} && s.pcs == map[]
  }

  /** One lock section, or one step outside the lock, of thread `t`. */
  ghost predicate Next(s: State, s': State, t: Thread, a: Action)
  {
    if t !in s.pcs then a.Start? && s' == s.(pcs := s.pcs[t := Idle])
    else
      match (a, s.pcs[t])
      case (Find, Idle) =>
        || (exists r :: r in s.entries && r in s.live && s.live[r].key == t.id && s' == s.(pcs := s.pcs[t := Holds(r)]))
        || (NoKey(s, t.id) && s' == s.(pcs := s.pcs[t := Missed]))
      case (Create, Missed) =>
        exists r :: r !in s.live && s' == Created(s, t, r)
      case (Insert, Made(r)) => s' == s.(entries := s.entries + {r}, pcs := s.pcs[t := Holds(r)])
      case (Release, Holds(r)) => s' == s.(pcs := s.pcs[t := Idle])
      case (Unlink, Holds(r)) => s' == s.(entries := s.entries - {r}, pcs := s.pcs[t := Unlinked(r)])
      case (Free, Unlinked(r)) => s' == s.(live := s.live - {r}, pcs := s.pcs[t := Idle])
      case (Exit, Idle) => s' == s.(pcs := s.pcs[t := Ended])
      case _ => false
  }

  ghost predicate NoKey(s: State, key: int)
  {
    forall r :: r in s.entries ==> r !in s.live || s.live[r].key != key
  }

  function Created(s: State, t: Thread, r: Ref): State
  {
    State(s.live[r := Object(t.id, t, s.nextId)], s.entries, s.pcs[t := Made(r)], s.nextId + 1)
  }

  predicate Alive(s: State, t: Thread) { t in s.pcs && s.pcs[t] != Ended }

  /** No two live threads share an id; ids of ended threads may come back. */
  ghost predicate DistinctLiveIds(s: State)
  {
    forall t, u :: Alive(s, t) && Alive(s, u) && t != u ==> t.id != u.id
  }

  ghost predicate HasEntry(s: State, t: Thread)
  {
    exists r :: r in s.entries && r in s.live && s.live[r].maker == t
  }

  /** What a thread's position says about its object. */
  ghost predicate PcFits(s: State, t: Thread, pc: Pc)
  {
    match pc
    case Idle => true
    case Missed => !HasEntry(s, t)
    case Made(r) => !HasEntry(s, t) && r in s.live && s.live[r].maker == t && r !in s.entries
    case Holds(r) => r in s.live && s.live[r].maker == t && r in s.entries
    case Unlinked(r) => !HasEntry(s, t) && r in s.live && s.live[r].maker == t && r !in s.entries
    case Ended => !HasEntry(s, t)
  }

  /** What holds of the objects and entries. */
  ghost predicate ObjectsFit(s: State)
  {
    && (forall r :: r in s.entries ==> r in s.live && s.live[r].maker in s.pcs)
    && (forall r :: r in s.live ==> s.live[r].key == s.live[r].maker.id && s.live[r].traceId < s.nextId)
    && (forall r, q :: r in s.entries && q in s.entries && r != q ==> s.live[r].maker != s.live[q].maker)
    && (forall r, q :: r in s.live && q in s.live && r != q ==> s.live[r].traceId != s.live[q].traceId)
  }

  ghost predicate Inv(s: State)
  {
    ObjectsFit(s) && forall t :: t in s.pcs ==> PcFits(s, t, s.pcs[t])
  }

  /** What the registry promises the threads. */
  ghost predicate Safe(s: State)
  {
    // no two entries under one key
    && (forall r, q :: r in s.entries && q in s.entries && r in s.live && q in s.live && r != q ==>
          s.live[r].key != s.live[q].key)
    // an object at hand is live, and is the one the thread made itself
    && (forall t :: t in s.pcs && s.pcs[t].Holds? ==> s.pcs[t].ref in s.live && s.live[s.pcs[t].ref].maker == t)
    // what is about to be freed is in no table and at no other thread's hand
    && (forall t, u :: t in s.pcs && u in s.pcs && s.pcs[t].Unlinked? && t != u && HasRef(s.pcs[u]) ==>
          s.pcs[u].ref != s.pcs[t].ref)
    && (forall t :: t in s.pcs && s.pcs[t].Unlinked? ==> s.pcs[t].ref !in s.entries)
  }

  predicate HasRef(pc: Pc) { pc.Made? || pc.Holds? || pc.Unlinked? }

  lemma InvIsSafe(s: State)
    requires DistinctLiveIds(s) && Inv(s)
    ensures Safe(s)
  {
    forall r, q | r in s.entries && q in s.entries && r != q
      ensures s.live[r].key != s.live[q].key
    {
      EntryOfLiveThread(s, r);
      EntryOfLiveThread(s, q);
    }
  }

  lemma EntryOfLiveThread(s: State, r: Ref)
    requires Inv(s) && r in s.entries
    ensures r in s.live && Alive(s, s.live[r].maker) && s.live[r].key == s.live[r].maker.id
  {
    var t := s.live[r].maker;
    assert PcFits(s, t, s.pcs[t]);
  }

  lemma PositionKept(s: State, s': State, t: Thread, a: Action, u: Thread)
    requires DistinctLiveIds(s) && Inv(s) && Next(s, s', t, a) && u in s'.pcs
    requires a.Exit? ==> !HasEntry(s, t)
    ensures PcFits(s', u, s'.pcs[u])
  {
    assert u in s.pcs ==> PcFits(s, u, s.pcs[u]);
    assert t in s.pcs ==> PcFits(s, t, s.pcs[t]);
    if a.Find? && s'.pcs[t].Holds? {
      EntryOfLiveThread(s, s'.pcs[t].ref);
    }
  }

  lemma CreatedFits(s: State, t: Thread, r: Ref)
    requires ObjectsFit(s) && r !in s.live && t in s.pcs
    ensures ObjectsFit(Created(s, t, r))
  {}

  lemma InsertedFits(s: State, s': State, t: Thread, r: Ref)
    requires ObjectsFit(s) && !HasEntry(s, t) && r in s.live && s.live[r].maker == t && t in s.pcs
    requires s'.live == s.live && s'.entries == s.entries + {r} && s'.nextId == s.nextId && s.pcs.Keys <= s'.pcs.Keys
    ensures ObjectsFit(s')
  {}

  lemma FewerFit(s: State, s': State)
    requires ObjectsFit(s) && s'.entries <= s.entries && s'.nextId == s.nextId && s.pcs.Keys <= s'.pcs.Keys
    requires s'.live.Keys <= s.live.Keys && forall r :: r in s'.live ==> s'.live[r] == s.live[r]
    requires forall r :: r in s'.entries ==> r in s'.live
    ensures ObjectsFit(s')
  {}

  lemma ObjectsKept(s: State, s': State, t: Thread, a: Action)
    requires ObjectsFit(s) && Next(s, s', t, a) && (t in s.pcs ==> PcFits(s, t, s.pcs[t]))
    ensures ObjectsFit(s')
  {
    hide ObjectsFit, HasEntry;
    EntriesLive(s);
    match a
    case Create =>
      var r :| r !in s.live && s' == Created(s, t, r);
      CreatedFits(s, t, r);
    case Insert => InsertedFits(s, s', t, s.pcs[t].ref);
    case _ => FewerFit(s, s');
  }

  lemma EntriesLive(s: State)
    requires ObjectsFit(s)
    ensures forall r :: r in s.entries ==> r in s.live
  {}

  /** Every step keeps the invariant, but for a thread that ends while it has an entry. */
  lemma InvKept(s: State, s': State, t: Thread, a: Action)
    requires DistinctLiveIds(s) && Inv(s) && Next(s, s', t, a)
    requires a.Exit? ==> !HasEntry(s, t)
    ensures Inv(s')
  {
    hide DistinctLiveIds, Next, ObjectsFit, PcFits, HasEntry;
    ObjectsKept(s, s', t, a);
    forall u | u in s'.pcs
      ensures PcFits(s', u, s'.pcs[u])
    {
      PositionKept(s, s', t, a, u);
    }
  }

  /** A step of one thread leaves every other thread's position, entries and objects alone. */
  lemma StepLeavesOthers(s: State, s': State, t: Thread, a: Action, u: Thread)
    requires Inv(s) && Next(s, s', t, a) && u != t
    ensures u in s.pcs <==> u in s'.pcs
    ensures u in s.pcs ==> s'.pcs[u] == s.pcs[u]
    ensures forall r :: r in s.live && s.live[r].maker == u ==>
              r in s'.live && s'.live[r] == s.live[r] && (r in s'.entries <==> r in s.entries)
  {
    assert t in s.pcs ==> PcFits(s, t, s.pcs[t]);
  }

  // Runs.

  /** A run: states and the steps between them, by any threads in any order. */
  ghost predicate IsRun(states: seq<State>, steps: seq<(Thread, Action)>)
  {
    && |states| == |steps| + 1 && Init(states[0])
    && forall i :: 0 <= i < |steps| ==> Next(states[i], states[i + 1], steps[i].0, steps[i].1)
  }

  ghost predicate IdsDistinct(states: seq<State>)
  {
    forall i :: 0 <= i < |states| ==> DistinctLiveIds(states[i])
  }

  ghost predicate AllSafe(states: seq<State>)
  {
    forall i :: 0 <= i < |states| ==> Safe(states[i])
  }

  /** From step `from` on, no thread ends while it still has an entry. */
  ghost predicate Tidy(states: seq<State>, steps: seq<(Thread, Action)>, from: nat)
  {
    forall i :: from <= i < |steps| && i < |states| && steps[i].1.Exit? ==> !HasEntry(states[i], steps[i].0)
  }

  lemma {:induction false} RunKeepsInv(states: seq<State>, steps: seq<(Thread, Action)>)
    requires IsRun(states, steps) && IdsDistinct(states) && Tidy(states, steps, 0)
    ensures Inv(states[|steps|])
    decreases |steps|
  {
    hide Next, DistinctLiveIds, HasEntry;
    if steps == [] {
      InitiallyInv(states[0]);
    } else {
      var n := |steps| - 1;
      RunKeepsInv(states[..n + 1], steps[..n]);
      assert Next(states[n], states[n + 1], steps[n].0, steps[n].1);
      InvKept(states[n], states[n + 1], steps[n].0, steps[n].1);
    }
  }

  lemma InitiallyInv(s: State)
    requires Init(s)
    ensures Inv(s)
  {}

  /** Safety over every interleaving of lock sections and over the coming and going of threads, as long as live threads
      have distinct ids and no thread ends while it has an entry. */
  lemma RegistryIsSafe(states: seq<State>, steps: seq<(Thread, Action)>)
    requires IsRun(states, steps) && IdsDistinct(states) && Tidy(states, steps, 0)
    ensures AllSafe(states)
  {
    hide Next, DistinctLiveIds, HasEntry, Inv, Safe;
    forall i | 0 <= i < |states|
      ensures Safe(states[i])
    {
      RunKeepsInv(states[..i + 1], steps[..i]);
      InvIsSafe(states[i]);
    }
  }

  // Threads that end with an entry.

  /** One step more, which is not an untidy end. */
  lemma RunExtended(states: seq<State>, steps: seq<(Thread, Action)>, s': State, t: Thread, a: Action, from: nat)
    returns (more: seq<State>, moreSteps: seq<(Thread, Action)>)
    requires IsRun(states, steps) && Tidy(states, steps, from) && Next(states[|steps|], s', t, a)
    requires a.Exit? ==> from > |steps| || !HasEntry(states[|steps|], t)
    ensures more == states + [s'] && moreSteps == steps + [(t, a)] && |more| == |moreSteps| + 1
    ensures more[|moreSteps|] == s' && IsRun(more, moreSteps) && Tidy(more, moreSteps, from)
  {
    hide Next, HasEntry;
    more, moreSteps := states + [s'], steps + [(t, a)];
    forall i | 0 <= i < |moreSteps|
      ensures Next(more[i], more[i + 1], moreSteps[i].0, moreSteps[i].1)
    {
      if i < |steps| {
        assert Next(states[i], states[i + 1], steps[i].0, steps[i].1);
      }
    }
  }

  lemma Extended(states: seq<State>, steps: seq<(Thread, Action)>, s': State, t: Thread, a: Action, from: nat)
    returns (more: seq<State>, moreSteps: seq<(Thread, Action)>)
    requires IsRun(states, steps) && IdsDistinct(states) && Tidy(states, steps, from)
    requires Next(states[|steps|], s', t, a) && DistinctLiveIds(s')
    requires a.Exit? ==> from > |steps| || !HasEntry(states[|steps|], t)
    ensures more == states + [s'] && moreSteps == steps + [(t, a)] && |more| == |moreSteps| + 1
    ensures more[|moreSteps|] == s' && IsRun(more, moreSteps) && IdsDistinct(more) && Tidy(more, moreSteps, from)
  {
    hide Next, DistinctLiveIds, HasEntry, IsRun, Tidy;
    more, moreSteps := RunExtended(states, steps, s', t, a, from);
  }

  /** The run of a thread that makes a trace. */
  lemma MakesTrace(t: Thread) returns (states: seq<State>, steps: seq<(Thread, Action)>)
    ensures IsRun(states, steps) && IdsDistinct(states) && Tidy(states, steps, 0) && |states| == |steps| + 1 == 5
    ensures forall i :: 0 <= i < |states| ==> states[i].pcs.Keys <= {t}
    ensures states[|steps|] == State(map[0 := Object(t.id, t, 0)], {0}, map[t := Holds(0)], 1)
  {
    hide IsRun, IdsDistinct, Tidy, HasEntry;
    var made, empty := map[0 := Object(t.id, t, 0)], map[];
    var s0, s1 := State(empty, {}, map[], 0), State(empty, {}, map[t := Idle], 0);
    var s2, s3 := State(empty, {}, map[t := Missed], 0), State(made, {}, map[t := Made(0)], 1);
    NoSteps(s0, 0);
    states, steps := [s0], [];
    states, steps := Extended(states, steps, s1, t, Start, 0);
    states, steps := Extended(states, steps, s2, t, Find, 0);
    assert s3 == Created(s2, t, 0) && 0 !in s2.live;
    states, steps := Extended(states, steps, s3, t, Create, 0);
    states, steps := Extended(states, steps, State(made, {0}, map[t := Holds(0)], 1), t, Insert, 0);
  }

  /** The run of a thread that makes a trace and ends without removing it. */
  lemma MakesTraceAndEnds(t: Thread) returns (states: seq<State>, steps: seq<(Thread, Action)>)
    ensures IsRun(states, steps) && IdsDistinct(states) && Tidy(states, steps, 6)
    ensures states[|steps|] == State(map[0 := Object(t.id, t, 0)], {0}, map[t := Ended], 1)
    ensures |steps| == 6 && steps[5] == (t, Exit)
  {
    hide IsRun, IdsDistinct, Tidy, HasEntry;
    var made := map[0 := Object(t.id, t, 0)];
    states, steps := MakesTrace(t);
    TidyLater(states, steps, 6);
    states, steps := Extended(states, steps, State(made, {0}, map[t := Idle], 1), t, Release, 6);
    states, steps := Extended(states, steps, State(made, {0}, map[t := Ended], 1), t, Exit, 6);
  }

  lemma TidyLater(states: seq<State>, steps: seq<(Thread, Action)>, from: nat)
    requires Tidy(states, steps, 0)
    ensures Tidy(states, steps, from)
  {}

  lemma NoSteps(s: State, from: nat)
    requires Init(s)
    ensures IsRun([s], []) && IdsDistinct([s]) && Tidy([s], [], from)
  {}

  /** `r` is the entry of a thread that has ended, and no thread of its id is inside the registry functions. */
  ghost predicate Orphan(s: State, r: Ref)
  {
    && r in s.entries && r in s.live && s.live[r].key == s.live[r].maker.id
    && s.live[r].maker in s.pcs && s.pcs[s.live[r].maker] == Ended
    && forall u :: u in s.pcs && u.id == s.live[r].key ==> s.pcs[u] == Idle || s.pcs[u] == Ended
  }

  lemma BecomesOrphan(s: State, s': State, t: Thread) returns (r: Ref)
    requires DistinctLiveIds(s) && Inv(s) && Next(s, s', t, Exit) && HasEntry(s, t)
    ensures Orphan(s', r)
  {
    r :| r in s.entries && r in s.live && s.live[r].maker == t;
    assert PcFits(s, t, s.pcs[t]);
  }

  /** As long as the registry stays safe, nobody touches an orphan. */
  lemma OrphanStays(s: State, s': State, t: Thread, a: Action, r: Ref)
    requires Orphan(s, r) && Safe(s) && Safe(s') && Next(s, s', t, a)
    ensures Orphan(s', r)
  {}

  lemma {:induction false} OrphanRemains(states: seq<State>, steps: seq<(Thread, Action)>, i: nat, r: Ref)
    requires IsRun(states, steps) && AllSafe(states) && i < |states| && Orphan(states[i], r)
    ensures Orphan(states[|steps|], r)
    decreases |states| - i
  {
    hide Orphan, Safe, Next;
    if i < |steps| {
      assert Next(states[i], states[i + 1], steps[i].0, steps[i].1);
      OrphanStays(states[i], states[i + 1], steps[i].0, steps[i].1, r);
      OrphanRemains(states, steps, i + 1, r);
    }
  }

  /** A thread of the orphan's id is handed the orphan. */
  lemma OrphanIsTaken(s: State, r: Ref, u: Thread) returns (s': State)
    requires Orphan(s, r) && DistinctLiveIds(s) && Alive(s, u) && u.id == s.live[r].key
    ensures Next(s, s', u, Find) && DistinctLiveIds(s') && !Safe(s')
  {
    s' := s.(pcs := s.pcs[u := Holds(r)]);
    assert s'.live[s'.pcs[u].ref].maker != u;
  }

  lemma ThreadStarts(s: State, r: Ref, u: Thread) returns (s': State)
    requires Orphan(s, r) && DistinctLiveIds(s) && u !in s.pcs && u.id == s.live[r].key
    requires forall t :: Alive(s, t) ==> t.id != u.id
    ensures Next(s, s', u, Start) && DistinctLiveIds(s') && Orphan(s', r) && Alive(s', u) && s'.live == s.live
  {
    s' := s.(pcs := s.pcs[u := Idle]);
  }

  /** There is always a thread of an id that has not started. */
  lemma UnusedThread(ts: set<Thread>, id: int) returns (u: Thread)
    ensures u.id == id && u !in ts
  {
    var n := Highest(ts);
    u := Thread(id, n);
  }

  lemma {:induction false} Highest(ts: set<Thread>) returns (n: nat)
    ensures forall t <- ts :: t.serial < n
  {
    if ts == {} {
      n := 0;
    } else {
      var t :| t in ts;
      n := Highest(ts - {t});
      if n <= t.serial {
        n := t.serial + 1;
      }
    }
  }

  /** A run that reached an orphan goes on to hand it to another thread. */
  lemma OrphanIsUnsafe(states: seq<State>, steps: seq<(Thread, Action)>, r: Ref)
    returns (more: seq<State>, moreSteps: seq<(Thread, Action)>)
    requires IsRun(states, steps) && IdsDistinct(states) && Orphan(states[|steps|], r)
    ensures Extends(states, steps, more, moreSteps) && IsRun(more, moreSteps) && IdsDistinct(more)
    ensures Tidy(more, moreSteps, |steps|) && !Safe(more[|moreSteps|])
  {
    hide IsRun, Next, DistinctLiveIds, Orphan, Safe, HasEntry;
    more, moreSteps := states, steps;
    LastState(states, steps, r);
    var key := states[|steps|].live[r].key;
    var u;
    if t :| Alive(states[|steps|], t) && t.id == key {
      u := t;
    } else {
      u := UnusedThread(states[|steps|].pcs.Keys, key);
      var s' := ThreadStarts(states[|steps|], r, u);
      more, moreSteps := Extended(more, moreSteps, s', u, Start, |steps|);
    }
    var s' := OrphanIsTaken(more[|moreSteps|], r, u);
    more, moreSteps := Extended(more, moreSteps, s', u, Find, |steps|);
  }

  lemma LastState(states: seq<State>, steps: seq<(Thread, Action)>, r: Ref)
    requires IsRun(states, steps) && IdsDistinct(states) && Orphan(states[|steps|], r)
    ensures |states| == |steps| + 1 && DistinctLiveIds(states[|steps|]) && r in states[|steps|].live
    ensures Tidy(states, steps, |steps|)
  {}

  /** `more` starts with `states`. */
  ghost predicate Extends(states: seq<State>, steps: seq<(Thread, Action)>,
                          more: seq<State>, moreSteps: seq<(Thread, Action)>)
  {
    && |states| == |steps| + 1 && |more| == |moreSteps| + 1
    && states <= more && steps <= moreSteps
  }

  lemma {:induction false} FirstUntidy(states: seq<State>, steps: seq<(Thread, Action)>, from: nat) returns (i: nat)
    requires |states| == |steps| + 1 && from <= |steps| && !Tidy(states, steps, from)
    ensures from <= i < |steps| && steps[i].1.Exit? && HasEntry(states[i], steps[i].0)
    ensures forall k :: from <= k < i && steps[k].1.Exit? ==> !HasEntry(states[k], steps[k].0)
    decreases |steps| - from
  {
    hide HasEntry;
    if steps[from].1.Exit? && HasEntry(states[from], steps[from].0) {
      i := from;
    } else {
      i := FirstUntidy(states, steps, from + 1);
    }
  }

  /** A run in which a thread ends with an entry can go on, without another such end, until the registry is unsafe. */
  lemma UntidyIsUnsafe(states: seq<State>, steps: seq<(Thread, Action)>)
    returns (more: seq<State>, moreSteps: seq<(Thread, Action)>)
    requires IsRun(states, steps) && IdsDistinct(states) && !Tidy(states, steps, 0)
    ensures Extends(states, steps, more, moreSteps) && IsRun(more, moreSteps) && IdsDistinct(more)
    ensures Tidy(more, moreSteps, |steps|) && !AllSafe(more)
  {
    hide Next, DistinctLiveIds, Orphan, Safe, HasEntry, Inv;
    if AllSafe(states) {
      var i := FirstUntidy(states, steps, 0);
      RunKeepsInv(states[..i + 1], steps[..i]);
      assert Next(states[i], states[i + 1], steps[i].0, steps[i].1);
      var r := BecomesOrphan(states[i], states[i + 1], steps[i].0);
      OrphanRemains(states, steps, i + 1, r);
      more, moreSteps := OrphanIsUnsafe(states, steps, r);
    } else {
      more, moreSteps := states, steps;
    }
  }

  /** For any run with distinct ids among live threads: the registry stays safe, whatever happens next, if and only if
      no thread has ended while it had an entry.  What happens next is any further run without such an end. */
  lemma SafeExactlyWhenTidy(states: seq<State>, steps: seq<(Thread, Action)>)
    requires IsRun(states, steps) && IdsDistinct(states)
    ensures Tidy(states, steps, 0) <==>
            forall more, moreSteps ::
              && Extends(states, steps, more, moreSteps) && IsRun(more, moreSteps) && IdsDistinct(more)
              && Tidy(more, moreSteps, |steps|)
              ==> AllSafe(more)
  {
    hide IsRun, IdsDistinct, AllSafe, HasEntry;
    if Tidy(states, steps, 0) {
      forall more, moreSteps | Extends(states, steps, more, moreSteps) && IsRun(more, moreSteps) && IdsDistinct(more)
                               && Tidy(more, moreSteps, |steps|)
        ensures AllSafe(more)
      {
        TidyTogether(states, steps, more, moreSteps);
        RegistryIsSafe(more, moreSteps);
      }
    } else {
      var more, moreSteps := UntidyIsUnsafe(states, steps);
    }
  }

  lemma TidyTogether(states: seq<State>, steps: seq<(Thread, Action)>,
                     more: seq<State>, moreSteps: seq<(Thread, Action)>)
    requires Extends(states, steps, more, moreSteps) && Tidy(states, steps, 0) && Tidy(more, moreSteps, |steps|)
    ensures Tidy(more, moreSteps, 0)
  {
    hide HasEntry;
    forall i | 0 <= i < |moreSteps| && moreSteps[i].1.Exit?
      ensures !HasEntry(more[i], moreSteps[i].0)
    {
      if i < |steps| {
        assert steps[i] == moreSteps[i] && states[i] == more[i];
      }
    }
  }

  /** The failing run: `t` ends inside an operation, `u` is started with its id and is handed its trace. */
  lemma EndingInsideIsUnsafe(t: Thread, u: Thread)
    requires t != u && t.id == u.id
    ensures exists states, steps ::
              && IsRun(states, steps) && IdsDistinct(states) && !Safe(states[|steps|])
              && |steps| == 8 && steps[5] == (t, Exit) && steps[6] == (u, Start) && steps[7] == (u, Find)
  {
    hide IsRun, Next, DistinctLiveIds, Safe, HasEntry, Tidy, IdsDistinct;
    var states, steps := MakesTraceAndEnds(t);
    LastState(states, steps, 0);
    var s' := ThreadStarts(states[6], 0, u);
    states, steps := Extended(states, steps, s', u, Start, 6);
    s' := OrphanIsTaken(s', 0, u);
    states, steps := Extended(states, steps, s', u, Find, 6);
  }

  // Live threads that share an id.

  /** The failing run when two live threads share an id: the second is handed the first one's trace. */
  lemma SharedIdIsUnsafe(t: Thread, u: Thread)
    returns (states: seq<State>, steps: seq<(Thread, Action)>)
    requires t != u && t.id == u.id
    ensures IsRun(states, steps) && Tidy(states, steps, 0) && |states| == |steps| + 1 && !Safe(states[|steps|])
    ensures forall i :: 0 <= i < |states| ==> states[i].pcs.Keys <= {t, u}
  {
    hide IsRun, IdsDistinct, Tidy, Safe, HasEntry;
    states, steps := MakesTrace(t);
    var s := states[|steps|];
    assert 0 in s.entries && s.live[0].key == u.id && s.live[0].maker == t;
    states, steps := RunExtended(states, steps, s.(pcs := s.pcs[u := Idle]), u, Start, 0);
    var s' := s.(pcs := s.pcs[u := Holds(0)]);
    states, steps := RunExtended(states, steps, s', u, Find, 0);
    NotItsOwn(s', u);
  }

  lemma NotItsOwn(s: State, u: Thread)
    requires u in s.pcs && s.pcs[u].Holds? && s.pcs[u].ref in s.live && s.live[s.pcs[u].ref].maker != u
    ensures !Safe(s)
  {}

  /** Only threads that `together` allows are live at the same time. */
  ghost predicate Overlapping(states: seq<State>, together: (Thread, Thread) -> bool)
  {
    forall i :: 0 <= i < |states| ==>
      forall t, u :: Alive(states[i], t) && Alive(states[i], u) && t != u ==> together(t, u)
  }

  /** Whatever threads may be live together: every run in which none ends with an entry is safe if and only if threads
      that may be live together have distinct ids. */
  lemma SafeExactlyWithDistinctIds(together: (Thread, Thread) -> bool)
    ensures (forall t, u :: t != u && together(t, u) && together(u, t) ==> t.id != u.id) <==>
            forall states, steps ::
              IsRun(states, steps) && Tidy(states, steps, 0) && Overlapping(states, together) ==> AllSafe(states)
  {
    hide IsRun, Safe, Tidy, Alive;
    if forall t, u :: t != u && together(t, u) && together(u, t) ==> t.id != u.id {
      forall states, steps | IsRun(states, steps) && Tidy(states, steps, 0) && Overlapping(states, together)
        ensures AllSafe(states)
      {
        RegistryIsSafe(states, steps);
      }
    } else {
      var t, u :| t != u && together(t, u) && together(u, t) && t.id == u.id;
      var states, steps := SharedIdIsUnsafe(t, u);
      OnlyThese(states, t, u);
    }
  }

  lemma OnlyThese(states: seq<State>, t: Thread, u: Thread)
    requires forall i :: 0 <= i < |states| ==> states[i].pcs.Keys <= {t, u}
    ensures forall i, v :: 0 <= i < |states| && Alive(states[i], v) ==> v == t || v == u
  {}
}
