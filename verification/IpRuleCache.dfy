/** The shared rule cache as a concurrent protocol. Readers try the cache under the read lock, then
    take the write lock, look again, scan the store and fill; writers commit to the store without any
    lock and only afterwards take the write lock to empty the cache. Scanning and filling are
    separate steps, so commits may fall between them. */
module IpRuleCache {
  import opened Common
  import opened Bytes
  import opened IpRules

  type Table = map<u64, Rule>

  datatype Change = Put(rule: Rule) | Remove(id: u64)

  function Changed(t: Table, c: Change): Table
  {
    match c
    case Put(r) => t[r.id := r]
    case Remove(id) => t - {id}
  }

  /** A rule written is there as written, a rule removed is not, and every other is as it was. */
  lemma ChangedExact(t: Table, c: Change, id: u64)
    ensures c.Put? && id == c.rule.id ==> id in Changed(t, c) && Changed(t, c)[id] == c.rule
    ensures c.Remove? && id == c.id ==> id !in Changed(t, c)
    ensures (c.Put? ==> id != c.rule.id) && (c.Remove? ==> id != c.id) ==>
              (id in Changed(t, c) <==> id in t) && (id in t ==> Changed(t, c)[id] == t[id])
  {
  }

  /** A compiled list with the version of the store it was compiled from. */
  datatype Snapshot = Snapshot(rules: seq<CompiledRule>, version: nat)

  datatype Call =
    | Reading(floor: nat)                      // about to look under the read lock
    | Waiting(floor: nat)                      // saw nothing, wants the write lock
    | Filling(floor: nat)                      // holds the write lock over an empty cache
    | Scanned(floor: nat, found: Snapshot)     // still holds the lock, list in hand
    | Writing(change: Change)                  // create, or delete before its existence check
    | Deleting(change: Change)                 // delete, after it saw the rule
    | Committed(change: Change, version: nat)  // batch applied, cache not yet emptied

  datatype Decision = Decision(call: nat, floor: nat, found: Snapshot)

  /** `history` holds every version of the stored rules, newest last. `floor` is the newest version
      that any finished call has made visible; `begun` the call ids already used. */
  datatype State = State(
    history: seq<Table>,
    cache: Option<Snapshot>,
    holder: Option<nat>,
    calls: map<nat, Call>,
    begun: set<nat>,
    floor: nat,
    decisions: seq<Decision>)

  function Init(t: Table): State
  {
    State([t], None, None, map[], {}, 0, [])
  }

  datatype Step =
    | BeginDecision(c: nat)
    | CacheHit(c: nat)          // read lock: the cache is full
    | CacheMiss(c: nat)         // read lock: the cache is empty
    | LateHit(c: nat)           // write lock: somebody filled it meanwhile
    | TakeLock(c: nat)          // write lock: still empty
    | Scan(c: nat)
    | ScanFails(c: nat)
    | Fill(c: nat)
    | BeginCreate(c: nat, rule: Rule)
    | BeginDelete(c: nat, id: u64)
    | FindsNothing(c: nat)      // delete of an absent rule returns without writing
    | FindsRule(c: nat)
    | Commit(c: nat)
    | CommitFails(c: nat)
    | Invalidate(c: nat)        // write lock: empty the cache and return

  function Latest(s: State): nat
    requires s.history != []
  {
    |s.history| - 1
  }

  predicate At(s: State, c: nat)
  {
    s.history != [] && c in s.calls
  }

  predicate ReadyToCommit(call: Call)
  {
    (call.Writing? && call.change.Put?) || call.Deleting?
  }

  predicate Enabled(s: State, step: Step)
  {
    match step
    case BeginDecision(c) => s.history != [] && c !in s.begun
    case BeginCreate(c, _) => s.history != [] && c !in s.begun
    case BeginDelete(c, _) => s.history != [] && c !in s.begun
    case CacheHit(c) => At(s, c) && s.calls[c].Reading? && s.holder.None? && s.cache.Some?
    case CacheMiss(c) => At(s, c) && s.calls[c].Reading? && s.holder.None? && s.cache.None?
    case LateHit(c) => At(s, c) && s.calls[c].Waiting? && s.holder.None? && s.cache.Some?
    case TakeLock(c) => At(s, c) && s.calls[c].Waiting? && s.holder.None? && s.cache.None?
    case Scan(c) => At(s, c) && s.calls[c].Filling?
    case ScanFails(c) => At(s, c) && s.calls[c].Filling?
    case Fill(c) => At(s, c) && s.calls[c].Scanned?
    case FindsNothing(c) =>
      At(s, c) && s.calls[c].Writing? && s.calls[c].change.Remove? && s.calls[c].change.id !in s.history[Latest(s)]
    case FindsRule(c) =>
      At(s, c) && s.calls[c].Writing? && s.calls[c].change.Remove? && s.calls[c].change.id in s.history[Latest(s)]
    case Commit(c) => At(s, c) && ReadyToCommit(s.calls[c])
    case CommitFails(c) => At(s, c) && ReadyToCommit(s.calls[c])
    case Invalidate(c) => At(s, c) && s.calls[c].Committed? && s.holder.None?
  }

  function Max(a: nat, b: nat): nat { if a < b then b else a }

  /** A decision returns with a list in hand. */
  function Return(s: State, c: nat, floor: nat, found: Snapshot): State
  {
    s.(calls := s.calls - {c}, floor := Max(s.floor, found.version),
       decisions := s.decisions + [Decision(c, floor, found)])
  }

  function Begin(s: State, c: nat, call: Call): State
  {
    s.(calls := s.calls[c := call], begun := s.begun + {c})
  }

  function Take(s: State, step: Step, parseIp: string -> Option<Ip>): State
    requires Enabled(s, step)
  {
    match step
    case BeginDecision(c) => Begin(s, c, Reading(s.floor))
    case BeginCreate(c, rule) => Begin(s, c, Writing(Put(rule)))
    case BeginDelete(c, id) => Begin(s, c, Writing(Remove(id)))
    case CacheHit(c) => Return(s, c, s.calls[c].floor, s.cache.value)
    case CacheMiss(c) => s.(calls := s.calls[c := Waiting(s.calls[c].floor)])
    case LateHit(c) => Return(s, c, s.calls[c].floor, s.cache.value)
    case TakeLock(c) => s.(calls := s.calls[c := Filling(s.calls[c].floor)], holder := Some(c))
    case Scan(c) =>
      var found := Snapshot(Compile(s.history[Latest(s)], parseIp), Latest(s));
      s.(calls := s.calls[c := Scanned(s.calls[c].floor, found)])
    case ScanFails(c) => s.(calls := s.calls - {c}, holder := None)
    case Fill(c) =>
      Return(s, c, s.calls[c].floor, s.calls[c].found).(cache := Some(s.calls[c].found), holder := None)
    case FindsNothing(c) => s.(calls := s.calls - {c})
    case FindsRule(c) => s.(calls := s.calls[c := Deleting(s.calls[c].change)])
    case Commit(c) =>
      s.(history := s.history + [Changed(s.history[Latest(s)], s.calls[c].change)],
         calls := s.calls[c := Committed(s.calls[c].change, |s.history|)])
    case CommitFails(c) => s.(calls := s.calls - {c})
    case Invalidate(c) =>
      s.(cache := None, calls := s.calls - {c}, floor := Max(s.floor, s.calls[c].version))
  }

  // ----- The invariant -----

  /** Some writer has committed this version and not yet emptied the cache. */
  predicate Pending(s: State, v: nat)
  {
    exists c | c in s.calls :: s.calls[c].Committed? && s.calls[c].version == v
  }

  /** A list in circulation: compiled from a real version, no older than anything already seen, and
      every version after it still owes its invalidation. */
  predicate Current(s: State, found: Snapshot, parseIp: string -> Option<Ip>)
  {
    && s.floor <= found.version < |s.history|
    && found.rules == Compile(s.history[found.version], parseIp)
    && forall v | found.version < v < |s.history| :: Pending(s, v)
  }

  predicate LockDiscipline(s: State)
  {
    && (s.holder.Some? ==> s.cache.None?)
    && (forall c | c in s.calls && (s.calls[c].Filling? || s.calls[c].Scanned?) :: s.holder == Some(c))
  }

  /** Version v of the rules is the one before it with this change. */
  predicate Wrote(history: seq<Table>, change: Change, v: nat)
  {
    1 <= v < |history| && history[v] == Changed(history[v - 1], change)
  }

  predicate FloorsKept(s: State)
  {
    && s.floor < |s.history|
    && (forall c | c in s.calls ::
          s.calls[c].Reading? || s.calls[c].Waiting? || s.calls[c].Filling? || s.calls[c].Scanned?
          ==> s.calls[c].floor <= s.floor)
    && (forall c | c in s.calls && s.calls[c].Committed? :: Wrote(s.history, s.calls[c].change, s.calls[c].version))
  }

  predicate DecisionsSound(s: State, parseIp: string -> Option<Ip>)
  {
    forall d | d in s.decisions ::
      && d.floor <= d.found.version < |s.history| && d.found.version <= s.floor
      && d.found.rules == Compile(s.history[d.found.version], parseIp)
  }

  predicate Inv(s: State, parseIp: string -> Option<Ip>)
  {
    && LockDiscipline(s) && FloorsKept(s) && DecisionsSound(s, parseIp)
    && (s.cache.Some? ==> Current(s, s.cache.value, parseIp))
    && (forall c | c in s.calls && s.calls[c].Scanned? :: Current(s, s.calls[c].found, parseIp))
  }

  /** A list stays current across a step that returns nothing and invalidates nothing. */
  lemma CurrentKept(s: State, s': State, found: Snapshot, parseIp: string -> Option<Ip>)
    requires Current(s, found, parseIp)
    requires s'.floor <= found.version && s.history <= s'.history
    requires forall c | c in s.calls && s.calls[c].Committed? :: c in s'.calls && s'.calls[c] == s.calls[c]
    requires forall v | |s.history| <= v < |s'.history| :: Pending(s', v)
    ensures Current(s', found, parseIp)
  {
    forall v | found.version < v < |s'.history| ensures Pending(s', v) {
      if v < |s.history| {
        assert Pending(s, v);
        var c :| c in s.calls && s.calls[c].Committed? && s.calls[c].version == v;
        assert c in s'.calls;
      }
    }
  }

  lemma CommitKeeps(s: State, c: nat, parseIp: string -> Option<Ip>)
    requires Inv(s, parseIp) && Enabled(s, Commit(c))
    ensures Inv(Take(s, Commit(c), parseIp), parseIp)
  {
    var s' := Take(s, Commit(c), parseIp);
    assert s'.calls[c] == Committed(s.calls[c].change, |s.history|);
    if s.cache.Some? { CurrentKept(s, s', s.cache.value, parseIp); }
    forall r | r in s'.calls && s'.calls[r].Scanned? ensures Current(s', s'.calls[r].found, parseIp) {
      CurrentKept(s, s', s.calls[r].found, parseIp);
    }
  }

  lemma ScanKeeps(s: State, c: nat, parseIp: string -> Option<Ip>)
    requires Inv(s, parseIp) && Enabled(s, Scan(c))
    ensures Inv(Take(s, Scan(c), parseIp), parseIp)
  {
    var s' := Take(s, Scan(c), parseIp);
    assert s.holder == Some(c);
  }

  lemma ReturnKeeps(s: State, step: Step, parseIp: string -> Option<Ip>)
    requires Inv(s, parseIp) && Enabled(s, step)
    requires step.CacheHit? || step.LateHit? || step.Fill?
    ensures Inv(Take(s, step, parseIp), parseIp)
  {
    var s' := Take(s, step, parseIp);
    var found := if step.Fill? then s.calls[step.c].found else s.cache.value;
    CurrentKept(s, s', found, parseIp);
    assert forall r | r in s.calls && s.calls[r].Scanned? :: s.holder == Some(r);
  }

  lemma InvalidateKeeps(s: State, c: nat, parseIp: string -> Option<Ip>)
    requires Inv(s, parseIp) && Enabled(s, Invalidate(c))
    ensures Inv(Take(s, Invalidate(c), parseIp), parseIp)
  {
    var s' := Take(s, Invalidate(c), parseIp);
    assert forall r | r in s.calls && s.calls[r].Scanned? :: s.holder == Some(r);
  }

  lemma QuietKeeps(s: State, step: Step, parseIp: string -> Option<Ip>)
    requires Inv(s, parseIp) && Enabled(s, step)
    requires !step.Commit? && !step.Scan? && !step.CacheHit? && !step.LateHit? && !step.Fill? && !step.Invalidate?
    requires forall c | c in s.calls :: c in s.begun
    ensures Inv(Take(s, step, parseIp), parseIp)
  {
    var s' := Take(s, step, parseIp);
    if s'.cache.Some? { CurrentKept(s, s', s.cache.value, parseIp); }
    forall r | r in s'.calls && s'.calls[r].Scanned? ensures Current(s', s'.calls[r].found, parseIp) {
      CurrentKept(s, s', s.calls[r].found, parseIp);
    }
  }

  predicate CallsBegun(s: State)
  {
    && (forall c | c in s.calls :: c in s.begun)
    && (forall d | d in s.decisions :: d.call in s.begun)
  }

  lemma StepKeeps(s: State, step: Step, parseIp: string -> Option<Ip>)
    requires Inv(s, parseIp) && CallsBegun(s) && Enabled(s, step)
    ensures Inv(Take(s, step, parseIp), parseIp) && CallsBegun(Take(s, step, parseIp))
  {
    match step
    case Commit(c) => CommitKeeps(s, c, parseIp);
    case Scan(c) => ScanKeeps(s, c, parseIp);
    case CacheHit(_) => ReturnKeeps(s, step, parseIp);
    case LateHit(_) => ReturnKeeps(s, step, parseIp);
    case Fill(_) => ReturnKeeps(s, step, parseIp);
    case Invalidate(c) => InvalidateKeeps(s, c, parseIp);
    case _ => QuietKeeps(s, step, parseIp);
  }

  ghost predicate Reaches(s: State, steps: seq<Step>, parseIp: string -> Option<Ip>, s': State)
    decreases |steps|
  {
    if steps == [] then s == s'
    else Enabled(s, steps[0]) && Reaches(Take(s, steps[0], parseIp), steps[1..], parseIp, s')
  }

  lemma {:induction false} RunKeeps(s: State, steps: seq<Step>, parseIp: string -> Option<Ip>, s': State)
    requires Inv(s, parseIp) && CallsBegun(s) && Reaches(s, steps, parseIp, s')
    ensures Inv(s', parseIp) && CallsBegun(s')
    decreases |steps|
  {
    if steps != [] {
      StepKeeps(s, steps[0], parseIp);
      RunKeeps(Take(s, steps[0], parseIp), steps[1..], parseIp, s');
    }
  }

  // ----- Coherence -----

  /** In every reachable state, a cached list that differs from the compiled stored rules means that
      some writer is between its batch and its invalidation. */
  lemma StaleCacheHasPendingWriter(t: Table, steps: seq<Step>, parseIp: string -> Option<Ip>, s: State)
    requires Reaches(Init(t), steps, parseIp, s)
    requires s.history != [] && s.cache.Some? && s.cache.value.rules != Compile(s.history[Latest(s)], parseIp)
    ensures exists c | c in s.calls :: s.calls[c].Committed? && s.calls[c].version == Latest(s)
  {
    RunKeeps(Init(t), steps, parseIp, s);
    assert Pending(s, Latest(s));
  }

  predicate Later(s: State, s': State)
  {
    s.floor <= s'.floor && s.history <= s'.history && s.begun <= s'.begun
  }

  predicate Deciding(call: Call)
  {
    call.Reading? || call.Waiting? || call.Filling? || call.Scanned?
  }

  /** What the decisions of calls begun after s owe to s. */
  predicate OweFloor(s: State, s': State)
  {
    && (forall c | c in s'.calls && c !in s.begun && Deciding(s'.calls[c]) :: s.floor <= s'.calls[c].floor)
    && (forall d | d in s'.decisions && d.call !in s.begun :: s.floor <= d.floor)
  }

  lemma OweFloorStep(s: State, s': State, step: Step, parseIp: string -> Option<Ip>)
    requires Later(s, s') && OweFloor(s, s') && Enabled(s', step)
    ensures Later(s, Take(s', step, parseIp)) && OweFloor(s, Take(s', step, parseIp))
  {
  }

  lemma {:induction false} OweFloorRun(s: State, s': State, steps: seq<Step>, parseIp: string -> Option<Ip>, s'': State)
    requires Later(s, s') && OweFloor(s, s') && Reaches(s', steps, parseIp, s'')
    ensures Later(s, s'') && OweFloor(s, s'')
    decreases |steps|
  {
    if steps != [] {
      OweFloorStep(s, s', steps[0], parseIp);
      OweFloorRun(s, Take(s', steps[0], parseIp), steps[1..], parseIp, s'');
    }
  }

  /** A decision begun after s answers from one real version of the store, not below the floor of s. */
  lemma DecisionsKeepFloor(s: State, after: seq<Step>, s': State, parseIp: string -> Option<Ip>, d: Decision)
    requires Inv(s, parseIp) && CallsBegun(s) && Reaches(s, after, parseIp, s')
    requires d in s'.decisions && d.call !in s.begun
    ensures s.floor <= d.found.version < |s'.history| && s.history <= s'.history
    ensures d.found.rules == Compile(s'.history[d.found.version], parseIp)
  {
    RunKeeps(s, after, parseIp, s');
    OweFloorRun(s, s, after, parseIp, s');
  }

  /** Coherence over every run: once a create, or a delete that found its rule, has returned, every decision that
      begins later uses the version it wrote or a newer one. */
  lemma ChangeIsSeen(t: Table, before: seq<Step>, s: State, c: nat, after: seq<Step>, s': State,
                     parseIp: string -> Option<Ip>, d: Decision)
    requires Reaches(Init(t), before, parseIp, s) && Enabled(s, Invalidate(c))
    requires Reaches(Take(s, Invalidate(c), parseIp), after, parseIp, s')
    requires d in s'.decisions && d.call !in s.begun
    ensures Wrote(s'.history, s.calls[c].change, s.calls[c].version)
    ensures s.calls[c].version <= d.found.version < |s'.history|
    ensures d.found.rules == Compile(s'.history[d.found.version], parseIp)
  {
    RunKeeps(Init(t), before, parseIp, s);
    StepKeeps(s, Invalidate(c), parseIp);
    DecisionsKeepFloor(Take(s, Invalidate(c), parseIp), after, s', parseIp, d);
  }

  /** A decision never uses older rules than one that had returned before it began. */
  lemma DecisionsAdvance(t: Table, before: seq<Step>, s: State, after: seq<Step>, s': State,
                         parseIp: string -> Option<Ip>, earlier: Decision, d: Decision)
    requires Reaches(Init(t), before, parseIp, s) && Reaches(s, after, parseIp, s')
    requires earlier in s.decisions && d in s'.decisions && d.call !in s.begun
    ensures earlier.found.version <= d.found.version
  {
    RunKeeps(Init(t), before, parseIp, s);
    DecisionsKeepFloor(s, after, s', parseIp, d);
  }

  // ----- When later decisions see the latest rules -----

  /** A list older than the stored rules is cached, or about to be. */
  predicate Stale(s: State)
    requires s.history != []
  {
    || (s.cache.Some? && s.cache.value.version < Latest(s))
    || (exists c | c in s.calls :: s.calls[c].Scanned? && s.calls[c].found.version < Latest(s))
  }

  /** Every decision begun after s uses version v or a newer one, however things go on. */
  ghost predicate AllLaterSee(s: State, v: nat, parseIp: string -> Option<Ip>)
  {
    forall after, s', d | Reaches(s, after, parseIp, s') && d in s'.decisions && d.call !in s.begun ::
      v <= d.found.version
  }

  /** Lists in circulation, and decisions begun after s, are of version v at least. */
  predicate AtLeast(s: State, s': State, v: nat)
  {
    && s.begun <= s'.begun && s'.history != [] && v <= Latest(s')
    && (s'.cache.Some? ==> v <= s'.cache.value.version)
    && (forall c | c in s'.calls && s'.calls[c].Scanned? :: v <= s'.calls[c].found.version)
    && (forall d | d in s'.decisions && d.call !in s.begun :: v <= d.found.version)
  }

  lemma {:induction false} AtLeastRun(s: State, s': State, v: nat, steps: seq<Step>,
                                      parseIp: string -> Option<Ip>, s'': State)
    requires AtLeast(s, s', v) && Reaches(s', steps, parseIp, s'')
    ensures AtLeast(s, s'', v)
    decreases |steps|
  {
    if steps != [] {
      AtLeastStep(s, s', v, steps[0], parseIp);
      AtLeastRun(s, Take(s', steps[0], parseIp), v, steps[1..], parseIp, s'');
    }
  }

  lemma AtLeastStep(s: State, s': State, v: nat, step: Step, parseIp: string -> Option<Ip>)
    requires AtLeast(s, s', v) && Enabled(s', step)
    ensures AtLeast(s, Take(s', step, parseIp), v)
  {
  }

  lemma Above(begun: set<nat>) returns (c: nat)
    ensures forall x | x in begun :: x < c
    decreases begun
  {
    c := 0;
    if begun != {} {
      var x :| x in begun;
      var rest := Above(begun - {x});
      c := Max(rest, x + 1);
      forall y | y in begun ensures y < c {
        assert y != x ==> y in begun - {x};
      }
    }
  }

  /** A cached list can be answered from. */
  lemma HitCache(s: State, parseIp: string -> Option<Ip>)
    requires s.history != [] && s.cache.Some? && s.holder.None? && s.cache.value.version < Latest(s)
    ensures !AllLaterSee(s, Latest(s), parseIp)
  {
    var c := Above(s.begun);
    var s1 := Take(s, BeginDecision(c), parseIp);
    var s2 := Take(s1, CacheHit(c), parseIp);
    var d := Decision(c, s.floor, s.cache.value);
    assert s2.decisions[|s.decisions|] == d;
    var steps := [BeginDecision(c), CacheHit(c)];
    assert steps[1..] == [CacheHit(c)] && steps[1..][1..] == [];
    assert Reaches(s2, [], parseIp, s2) && Reaches(s1, steps[1..], parseIp, s2);
    assert Reaches(s, steps, parseIp, s2);
  }

  lemma StepThen(s: State, step: Step, v: nat, parseIp: string -> Option<Ip>)
    requires Enabled(s, step) && !AllLaterSee(Take(s, step, parseIp), v, parseIp)
    requires Take(s, step, parseIp).begun == s.begun
    ensures !AllLaterSee(s, v, parseIp)
  {
    var s1 := Take(s, step, parseIp);
    var after, s', d :| Reaches(s1, after, parseIp, s') && d in s'.decisions && d.call !in s1.begun
                        && d.found.version < v;
    assert ([step] + after)[1..] == after;
    assert Reaches(s, [step] + after, parseIp, s');
  }

  /** However things go on, later decisions see the rules as stored now, exactly when no older list is cached
      or about to be. */
  lemma LatestIsSeenIff(s: State, parseIp: string -> Option<Ip>)
    requires Inv(s, parseIp) && CallsBegun(s)
    ensures AllLaterSee(s, Latest(s), parseIp) <==> !Stale(s)
  {
    if !Stale(s) {
      forall after, s', d | Reaches(s, after, parseIp, s') && d in s'.decisions && d.call !in s.begun
        ensures Latest(s) <= d.found.version
      {
        AtLeastRun(s, s, Latest(s), after, parseIp, s');
      }
    } else if s.cache.Some? && s.cache.value.version < Latest(s) {
      HitCache(s, parseIp);
    } else {
      var c :| c in s.calls && s.calls[c].Scanned? && s.calls[c].found.version < Latest(s);
      HitCache(Take(s, Fill(c), parseIp), parseIp);
      StepThen(s, Fill(c), Latest(s), parseIp);
    }
  }

  /** A stale list has a writer that has committed and not yet emptied the cache. */
  lemma StaleHasPendingWriter(s: State, parseIp: string -> Option<Ip>)
    requires Inv(s, parseIp) && Stale(s)
    ensures Pending(s, Latest(s))
  {
  }

  // ----- A delete that finds nothing -----

  /** A list made from a version with the rule is cached, or about to be. */
  predicate HoldsRule(s: State, id: u64)
  {
    || (s.cache.Some? && HasRule(s.history, s.cache.value.version, id))
    || (exists c | c in s.calls :: s.calls[c].Scanned? && HasRule(s.history, s.calls[c].found.version, id))
  }

  predicate HasRule(history: seq<Table>, v: nat, id: u64)
  {
    v < |history| && id in history[v]
  }

  /** The rule was written again at some version from `from` to v. */
  ghost predicate PutBack(history: seq<Table>, from: nat, v: nat, id: u64)
  {
    exists w, rule :: from <= w <= v && Wrote(history, Put(rule), w) && rule.id == id
  }

  /** However things go on, a decision begun after s works with the rule only if it has been put back since. */
  ghost predicate AllLaterWithout(s: State, id: u64, parseIp: string -> Option<Ip>)
  {
    forall after, s', d | Reaches(s, after, parseIp, s') && d in s'.decisions && d.call !in s.begun ::
      HasRule(s'.history, d.found.version, id) ==> PutBack(s'.history, |s.history|, d.found.version, id)
  }

  /** Each version is the one before it with one change. */
  ghost predicate ChangesOnly(history: seq<Table>)
  {
    forall v | 1 <= v < |history| :: Written(history, v)
  }

  ghost predicate Written(history: seq<Table>, v: nat)
  {
    exists change :: Wrote(history, change, v)
  }

  lemma ChangesStep(s: State, step: Step, parseIp: string -> Option<Ip>)
    requires ChangesOnly(s.history) && Enabled(s, step)
    ensures ChangesOnly(Take(s, step, parseIp).history) && s.history <= Take(s, step, parseIp).history
  {
    var history := Take(s, step, parseIp).history;
    if step.Commit? {
      assert Wrote(history, s.calls[step.c].change, |s.history|);
      forall v | 1 <= v < |s.history| ensures Written(history, v) {
        assert Written(s.history, v);
        var change :| Wrote(s.history, change, v);
        assert Wrote(history, change, v);
      }
    }
  }

  lemma {:induction false} ChangesRun(s: State, steps: seq<Step>, parseIp: string -> Option<Ip>, s': State)
    requires ChangesOnly(s.history) && Reaches(s, steps, parseIp, s')
    ensures ChangesOnly(s'.history) && s.history <= s'.history
    decreases |steps|
  {
    if steps != [] {
      ChangesStep(s, steps[0], parseIp);
      ChangesRun(Take(s, steps[0], parseIp), steps[1..], parseIp, s');
    }
  }

  /** A rule absent at one version and present at a later one was put back in between. */
  lemma {:induction false} AppearsByPut(history: seq<Table>, u: nat, v: nat, id: u64)
    requires ChangesOnly(history) && u <= v < |history| && id !in history[u] && id in history[v]
    ensures PutBack(history, u + 1, v, id)
    decreases v
  {
    assert Written(history, v);
    var change :| Wrote(history, change, v);
    if id in history[v - 1] {
      AppearsByPut(history, u, v - 1, id);
      var w, rule :| u + 1 <= w <= v - 1 && Wrote(history, Put(rule), w) && rule.id == id;
    } else {
      assert change == Put(change.rule) && change.rule.id == id;
    }
  }

  /** A rule present at one version and absent at a later one was removed in between. */
  lemma {:induction false} GoesByRemove(history: seq<Table>, u: nat, v: nat, id: u64) returns (w: nat)
    requires u <= v < |history| && id in history[u] && id !in history[v]
    ensures u < w <= v && id in history[w - 1] && id !in history[w]
    decreases v
  {
    if id in history[v - 1] {
      w := v;
    } else {
      w := GoesByRemove(history, u, v - 1, id);
    }
  }

  /** Lists in circulation, and decisions begun after s, that are of a version s had, are of one without the rule. */
  predicate OldWithout(s: State, s': State, id: u64)
  {
    && s.begun <= s'.begun && s.history <= s'.history && s.history != [] && id !in s.history[Latest(s)]
    && (s'.cache.Some? ==> !HasRule(s.history, s'.cache.value.version, id))
    && (forall c | c in s'.calls && s'.calls[c].Scanned? :: !HasRule(s.history, s'.calls[c].found.version, id))
    && (forall d | d in s'.decisions && d.call !in s.begun :: !HasRule(s.history, d.found.version, id))
  }

  lemma OldWithoutStep(s: State, s': State, id: u64, step: Step, parseIp: string -> Option<Ip>)
    requires OldWithout(s, s', id) && Enabled(s', step)
    ensures OldWithout(s, Take(s', step, parseIp), id)
  {
  }

  lemma {:induction false} OldWithoutRun(s: State, s': State, id: u64, steps: seq<Step>,
                                         parseIp: string -> Option<Ip>, s'': State)
    requires OldWithout(s, s', id) && Reaches(s', steps, parseIp, s'')
    ensures OldWithout(s, s'', id)
    decreases |steps|
  {
    if steps != [] {
      OldWithoutStep(s, s', id, steps[0], parseIp);
      OldWithoutRun(s, Take(s', steps[0], parseIp), id, steps[1..], parseIp, s'');
    }
  }

  lemma UsedOnlyIfPutBack(s: State, id: u64, after: seq<Step>, s': State, parseIp: string -> Option<Ip>, d: Decision)
    requires CallsBegun(s) && ChangesOnly(s.history) && s.history != [] && id !in s.history[Latest(s)]
    requires !HoldsRule(s, id) && Reaches(s, after, parseIp, s') && d in s'.decisions && d.call !in s.begun
    requires HasRule(s'.history, d.found.version, id)
    ensures PutBack(s'.history, |s.history|, d.found.version, id)
  {
    OldWithoutRun(s, s, id, after, parseIp, s');
    ChangesRun(s, after, parseIp, s');
    AppearsByPut(s'.history, Latest(s), d.found.version, id);
  }

  /** A cached list with the rule can be answered from. */
  lemma HitRule(s: State, id: u64, parseIp: string -> Option<Ip>)
    requires s.cache.Some? && s.holder.None? && HasRule(s.history, s.cache.value.version, id)
    ensures !AllLaterWithout(s, id, parseIp)
  {
    var c := Above(s.begun);
    var s1 := Take(s, BeginDecision(c), parseIp);
    var s2 := Take(s1, CacheHit(c), parseIp);
    var d := Decision(c, s.floor, s.cache.value);
    assert s2.decisions[|s.decisions|] == d;
    assert Reaches(s2, [], parseIp, s2);
    Chain(s1, CacheHit(c), [], parseIp, s2);
    Chain(s, BeginDecision(c), [CacheHit(c)] + [], parseIp, s2);
    assert !PutBack(s2.history, |s.history|, d.found.version, id);
  }

  lemma FillThenHit(s: State, c: nat, id: u64, parseIp: string -> Option<Ip>)
    requires At(s, c) && s.calls[c].Scanned? && HasRule(s.history, s.calls[c].found.version, id)
    ensures !AllLaterWithout(s, id, parseIp)
  {
    var s1 := Take(s, Fill(c), parseIp);
    HitRule(s1, id, parseIp);
    var after, s', d :| Reaches(s1, after, parseIp, s') && d in s'.decisions && d.call !in s1.begun
                        && HasRule(s'.history, d.found.version, id)
                        && !PutBack(s'.history, |s1.history|, d.found.version, id);
    Chain(s, Fill(c), after, parseIp, s');
  }

  /** Once a rule is gone from the store, later decisions are sure to work without it until it is put back,
      exactly when no list made with it is cached or about to be. */
  lemma GoneIsSeenIff(s: State, id: u64, parseIp: string -> Option<Ip>)
    requires Inv(s, parseIp) && CallsBegun(s) && ChangesOnly(s.history) && id !in s.history[Latest(s)]
    ensures AllLaterWithout(s, id, parseIp) <==> !HoldsRule(s, id)
  {
    if !HoldsRule(s, id) {
      forall after, s', d | Reaches(s, after, parseIp, s') && d in s'.decisions && d.call !in s.begun
                            && HasRule(s'.history, d.found.version, id)
        ensures PutBack(s'.history, |s.history|, d.found.version, id)
      {
        UsedOnlyIfPutBack(s, id, after, s', parseIp, d);
      }
    } else if s.cache.Some? && HasRule(s.history, s.cache.value.version, id) {
      HitRule(s, id, parseIp);
    } else {
      var c :| c in s.calls && s.calls[c].Scanned? && HasRule(s.history, s.calls[c].found.version, id);
      FillThenHit(s, c, id, parseIp);
    }
  }

  /** Some delete of the rule has committed and not yet emptied the cache. */
  predicate RemovalPending(s: State, id: u64)
  {
    exists c | c in s.calls :: s.calls[c].Committed? && s.calls[c].change == Remove(id)
  }

  lemma HeldHasPendingRemoval(s: State, found: Snapshot, id: u64, parseIp: string -> Option<Ip>)
    requires FloorsKept(s) && Current(s, found, parseIp) && id in s.history[found.version]
    requires id !in s.history[Latest(s)]
    ensures RemovalPending(s, id)
  {
    var w := GoesByRemove(s.history, found.version, Latest(s), id);
    assert Pending(s, w);
    var c :| c in s.calls && s.calls[c].Committed? && s.calls[c].version == w;
    assert Wrote(s.history, s.calls[c].change, w);
    assert s.calls[c].change.Remove? && s.calls[c].change.id == id;
  }

  /** A delete that finds nothing returns without emptying the cache: decisions that begin later are sure to
      work without the rule, until it is put back, exactly when no list made with it is cached or about to be;
      and if one is, another delete of that rule has yet to empty the cache. */
  lemma AbsentDeleteIsSeenIff(t: Table, before: seq<Step>, s: State, c: nat, parseIp: string -> Option<Ip>)
    requires Reaches(Init(t), before, parseIp, s) && Enabled(s, FindsNothing(c))
    ensures var s', id := Take(s, FindsNothing(c), parseIp), s.calls[c].change.id;
            && id !in s'.history[Latest(s')]
            && (AllLaterWithout(s', id, parseIp) <==> !HoldsRule(s', id))
            && (HoldsRule(s', id) ==> RemovalPending(s', id))
  {
    RunKeeps(Init(t), before, parseIp, s);
    StepKeeps(s, FindsNothing(c), parseIp);
    ChangesRun(Init(t), before, parseIp, s);
    var s', id := Take(s, FindsNothing(c), parseIp), s.calls[c].change.id;
    GoneIsSeenIff(s', id, parseIp);
    if HoldsRule(s', id) { HoldsHasPendingRemoval(s', id, parseIp); }
  }

  lemma HoldsHasPendingRemoval(s: State, id: u64, parseIp: string -> Option<Ip>)
    requires Inv(s, parseIp) && id !in s.history[Latest(s)] && HoldsRule(s, id)
    ensures RemovalPending(s, id)
  {
    if s.cache.Some? && HasRule(s.history, s.cache.value.version, id) {
      HeldHasPendingRemoval(s, s.cache.value, id, parseIp);
    } else {
      var c :| c in s.calls && s.calls[c].Scanned? && HasRule(s.history, s.calls[c].found.version, id);
      HeldHasPendingRemoval(s, s.calls[c].found, id, parseIp);
    }
  }

  // A run in which it is not seen: a reader fills the cache, a delete commits, a second delete of the same rule
  // finds nothing and returns, and a decision begun after that still answers from the list with the rule.

  const LOOK := [BeginDecision(0), CacheMiss(0), TakeLock(0)]
  const FILL := [Scan(0), Fill(0)]

  function FirstDelete(id: u64): seq<Step>
  {
    [BeginDelete(1, id), FindsRule(1), Commit(1)]
  }

  function SecondDelete(id: u64): seq<Step>
  {
    [BeginDelete(2, id), FindsNothing(2)]
  }

  const DECIDE := [BeginDecision(3), CacheHit(3)]

  function ListOf(t: Table, parseIp: string -> Option<Ip>): Snapshot
  {
    Snapshot(Compile(t, parseIp), 0)
  }

  function LockedState(t: Table): State
  {
    State([t], None, Some(0), map[0 := Filling(0)], {0}, 0, [])
  }

  function FilledState(t: Table, parseIp: string -> Option<Ip>): State
  {
    State([t], Some(ListOf(t, parseIp)), None, map[], {0}, 0, [Decision(0, 0, ListOf(t, parseIp))])
  }

  /** After these call ids have begun, with call 1 committed. */
  function DeletedState(t: Table, id: u64, parseIp: string -> Option<Ip>, begun: set<nat>): State
  {
    State([t, t - {id}], Some(ListOf(t, parseIp)), None, map[1 := Committed(Remove(id), 1)], begun, 0,
          [Decision(0, 0, ListOf(t, parseIp))])
  }

  lemma Chain(s: State, step: Step, steps: seq<Step>, parseIp: string -> Option<Ip>, s': State)
    requires Enabled(s, step) && Reaches(Take(s, step, parseIp), steps, parseIp, s')
    ensures Reaches(s, [step] + steps, parseIp, s')
  {
    assert ([step] + steps)[1..] == steps;
  }

  lemma {:induction false} ReachesConcat(s: State, a: seq<Step>, b: seq<Step>, parseIp: string -> Option<Ip>,
                                         mid: State, s': State)
    requires Reaches(s, a, parseIp, mid) && Reaches(mid, b, parseIp, s')
    ensures Reaches(s, a + b, parseIp, s')
    decreases |a|
  {
    if a == [] {
      assert a + b == b;
    } else {
      assert (a + b)[1..] == a[1..] + b;
      ReachesConcat(Take(s, a[0], parseIp), a[1..], b, parseIp, mid, s');
    }
  }

  lemma LookRun(t: Table, parseIp: string -> Option<Ip>)
    ensures Reaches(Init(t), LOOK, parseIp, LockedState(t))
  {
    var s1 := Take(Init(t), BeginDecision(0), parseIp);
    var s2 := Take(s1, CacheMiss(0), parseIp);
    var s3 := Take(s2, TakeLock(0), parseIp);
    assert s3 == LockedState(t);
    Chain(s2, TakeLock(0), [], parseIp, s3);
    Chain(s1, CacheMiss(0), [TakeLock(0)], parseIp, s3);
    Chain(Init(t), BeginDecision(0), [CacheMiss(0), TakeLock(0)], parseIp, s3);
  }

  lemma FillRun(t: Table, parseIp: string -> Option<Ip>)
    ensures Reaches(LockedState(t), FILL, parseIp, FilledState(t, parseIp))
  {
    var s1 := Take(LockedState(t), Scan(0), parseIp);
    var s2 := Take(s1, Fill(0), parseIp);
    assert s2 == FilledState(t, parseIp);
    Chain(s1, Fill(0), [], parseIp, s2);
    Chain(LockedState(t), Scan(0), [Fill(0)], parseIp, s2);
  }

  lemma FirstDeleteRun(t: Table, id: u64, parseIp: string -> Option<Ip>)
    requires id in t
    ensures Reaches(FilledState(t, parseIp), FirstDelete(id), parseIp, DeletedState(t, id, parseIp, {0, 1}))
  {
    var s0 := FilledState(t, parseIp);
    var s1 := Take(s0, BeginDelete(1, id), parseIp);
    var s2 := Take(s1, FindsRule(1), parseIp);
    var s3 := Take(s2, Commit(1), parseIp);
    assert s3 == DeletedState(t, id, parseIp, {0, 1});
    Chain(s2, Commit(1), [], parseIp, s3);
    Chain(s1, FindsRule(1), [Commit(1)], parseIp, s3);
    Chain(s0, BeginDelete(1, id), [FindsRule(1), Commit(1)], parseIp, s3);
  }

  lemma SecondDeleteRun(t: Table, id: u64, parseIp: string -> Option<Ip>)
    ensures Reaches(DeletedState(t, id, parseIp, {0, 1}), SecondDelete(id),
                    parseIp, DeletedState(t, id, parseIp, {0, 1, 2}))
  {
    var s0 := DeletedState(t, id, parseIp, {0, 1});
    var s1 := Take(s0, BeginDelete(2, id), parseIp);
    var s2 := Take(s1, FindsNothing(2), parseIp);
    assert s2 == DeletedState(t, id, parseIp, {0, 1, 2});
    Chain(s1, FindsNothing(2), [], parseIp, s2);
    Chain(s0, BeginDelete(2, id), [FindsNothing(2)], parseIp, s2);
  }

  lemma DecideRun(t: Table, id: u64, parseIp: string -> Option<Ip>) returns (s: State)
    ensures Reaches(DeletedState(t, id, parseIp, {0, 1, 2}), DECIDE, parseIp, s)
    ensures s.history == [t, t - {id}] && Decision(3, 0, ListOf(t, parseIp)) in s.decisions
  {
    var s0 := DeletedState(t, id, parseIp, {0, 1, 2});
    var s1 := Take(s0, BeginDecision(3), parseIp);
    s := Take(s1, CacheHit(3), parseIp);
    assert s.decisions[1] == Decision(3, 0, ListOf(t, parseIp));
    Chain(s1, CacheHit(3), [], parseIp, s);
    Chain(s0, BeginDecision(3), [CacheHit(3)], parseIp, s);
  }

  /** The second delete has returned at mid, and the decision begun after it uses the rules of version 0. */
  lemma AbsentDeleteCanMiss(t: Table, id: u64, parseIp: string -> Option<Ip>)
    returns (mid: State, s: State, d: Decision)
    requires id in t
    ensures Reaches(Init(t), LOOK + FILL + FirstDelete(id) + SecondDelete(id), parseIp, mid)
    ensures 2 in mid.begun && 2 !in mid.calls && mid.history != [] && id !in mid.history[Latest(mid)]
    ensures Reaches(mid, DECIDE, parseIp, s) && d in s.decisions && d.call !in mid.begun
    ensures d.found.version < |s.history| && id in s.history[d.found.version]
  {
    mid, d := DeletedState(t, id, parseIp, {0, 1, 2}), Decision(3, 0, ListOf(t, parseIp));
    LookRun(t, parseIp);
    FillRun(t, parseIp);
    FirstDeleteRun(t, id, parseIp);
    SecondDeleteRun(t, id, parseIp);
    ReachesConcat(Init(t), LOOK, FILL, parseIp, LockedState(t), FilledState(t, parseIp));
    ReachesConcat(Init(t), LOOK + FILL, FirstDelete(id), parseIp, FilledState(t, parseIp),
                  DeletedState(t, id, parseIp, {0, 1}));
    ReachesConcat(Init(t), LOOK + FILL + FirstDelete(id), SecondDelete(id), parseIp,
                  DeletedState(t, id, parseIp, {0, 1}), mid);
    s := DecideRun(t, id, parseIp);
  }

  // ----- What a version of the rules decides -----

  /** The action a table of rules gives a peer, straight from the rules' texts. */
  function TableVerdict(t: Table, parseIp: string -> Option<Ip>, peer: Ip): Option<Action>
  {
    Verdict((set r | r in Compile(t, parseIp)), peer.Canonical())
  }

  ghost predicate RuleSays(t: Table, parseIp: string -> Option<Ip>, peer: Ip, action: Action)
  {
    exists id, r | id in t :: CompilesTo(t[id], parseIp, r) && r.action == action && Covers(r, peer)
  }

  /** Compiling loses nothing: the verdict is Allow if some stored rule allows the peer, else Block if
      some stored rule blocks it, else nothing. */
  lemma VerdictOfTable(t: Table, parseIp: string -> Option<Ip>, peer: Ip)
    ensures TableVerdict(t, parseIp, peer) ==
            if RuleSays(t, parseIp, peer, Allow) then Some(Allow)
            else if RuleSays(t, parseIp, peer, Block) then Some(Block)
            else None
  {
    CompileExact(t, parseIp);
    var all := set r | r in Compile(t, parseIp);
    forall r ensures Matches(r, peer.Canonical()) <==> Covers(r, peer) { MatchesIffCovers(r, peer); }
    forall action ensures RuleSays(t, parseIp, peer, action) <==>
                          exists r | r in all :: r.action == action && Matches(r, peer.Canonical())
    {
      if RuleSays(t, parseIp, peer, action) {
        var id, r :| id in t && CompilesTo(t[id], parseIp, r) && r.action == action && Covers(r, peer);
        assert r in all;
      }
    }
  }
}
