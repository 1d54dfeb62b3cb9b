/** Second steps served at the same time on one account: each reads the list, checks its code on what it
    read, reads the list again and writes it with the factor it consumed. Nothing holds the list between
    these, so the codes are conserved exactly when every write finds the codes its request had read. */
module SecondFactorRace {
  import opened Credentials

  /** A request whose code was accepted on the list seen, then one that has read the list to write back. */
  datatype Task =
    | Looked(seen: seq<Credential>, proof: Proof)
    | Fetched(seen: seq<Credential>, proof: Proof, base: seq<Credential>)

  /** The stored list, the requests under way, those ever begun, and the recovery codes accepted so far. */
  datatype State = State(
    stored: seq<Credential>, tasks: map<nat, Task>, begun: set<nat>, spent: multiset<string>)

  datatype Event = Look(t: nat, proof: Proof) | Fetch(t: nat) | Store(t: nat)

  predicate Enabled(s: State, e: Event)
  {
    match e
    case Look(t, proof) => t !in s.begun && Possible(s.stored, Accepted(proof))
    case Fetch(t) => t in s.tasks && s.tasks[t].Looked?
    case Store(t) => t in s.tasks && s.tasks[t].Fetched? && Possible(s.tasks[t].seen, Accepted(s.tasks[t].proof))
  }

  function Next(s: State, e: Event): State
    requires Enabled(s, e)
  {
    match e
    case Look(t, proof) => s.(tasks := s.tasks[t := Looked(s.stored, proof)], begun := s.begun + {t})
    case Fetch(t) =>
      var task := s.tasks[t];
      s.(tasks := s.tasks[t := Fetched(task.seen, task.proof, s.stored)])
    case Store(t) =>
      var task := s.tasks[t];
      var i := FirstEnabled(task.seen);
      s.(stored := WrittenBack(task.base, task.seen[i := Factor(Spent(task.seen[i].totp, task.proof))]),
         tasks := s.tasks - {t},
         spent := s.spent + SpentBy(task.seen, Accepted(task.proof)))
  }

  predicate GoodTask(task: Task)
  {
    Single(task.seen) && Possible(task.seen, Accepted(task.proof)) && (task.Fetched? ==> Single(task.base))
  }

  predicate Good(s: State)
  {
    Single(s.stored) && (forall t | t in s.tasks :: GoodTask(s.tasks[t]) && t in s.begun)
  }

  /** What a write leaves: the codes its request had read, less the one it accepted. */
  lemma StoreLeaves(base: seq<Credential>, seen: seq<Credential>, proof: Proof)
    requires Single(base) && Single(seen) && Possible(seen, Accepted(proof))
    ensures var i := FirstEnabled(seen);
            var r := WrittenBack(base, seen[i := Factor(Spent(seen[i].totp, proof))]);
            Single(r) && Codes(r) + SpentBy(seen, Accepted(proof)) == Codes(seen)
  {
    var totp := seen[FirstEnabled(seen)].totp;
    WrittenIsConsumed(seen, Spent(totp, proof));
    ReplacedCounts(base, Spent(totp, proof));
    SpendingConserves(totp, proof);
  }

  lemma NextKeeps(s: State, e: Event)
    requires Good(s) && Enabled(s, e)
    ensures Good(Next(s, e))
  {
    if e.Store? { StoreLeaves(s.tasks[e.t].base, s.tasks[e.t].seen, s.tasks[e.t].proof); }
  }

  // ----- Runs -----

  datatype Run = Run(events: seq<Event>, states: seq<State>) {
    ghost predicate Valid()
    {
      && |states| == |events| + 1
      && Single(states[0].stored) && states[0] == State(states[0].stored, map[], {}, multiset{})
      && (forall i | 0 <= i < |events| :: Follows(i))
    }

    predicate Follows(i: nat)
      requires i < |events| < |states|
    {
      Enabled(states[i], events[i]) && states[i + 1] == Next(states[i], events[i])
    }
  }

  lemma {:induction false} RunGood(run: Run, n: nat)
    requires run.Valid() && n <= |run.events|
    ensures Good(run.states[n])
  {
    if n > 0 {
      RunGood(run, n - 1);
      assert run.Follows(n - 1);
      NextKeeps(run.states[n - 1], run.events[n - 1]);
    }
  }

  /** Codes stored and codes accepted are together the codes at the start. */
  predicate Balanced(run: Run, i: nat)
    requires i < |run.states|
  {
    Codes(run.states[i].stored) + run.states[i].spent == Codes(run.states[0].stored)
  }

  /** A write finds the codes its request had read. */
  predicate Finds(s: State, e: Event)
  {
    e.Store? && e.t in s.tasks ==> Codes(s.stored) == Codes(s.tasks[e.t].seen)
  }

  lemma Cancel(a: multiset<string>, b: multiset<string>, x: multiset<string>)
    ensures a + x == b + x <==> a == b
  {
    if a + x == b + x {
      forall c ensures a[c] == b[c] { assert (a + x)[c] == (b + x)[c]; }
    }
  }

  lemma StepBalance(run: Run, i: nat)
    requires run.Valid() && i < |run.events| && Balanced(run, i)
    ensures Balanced(run, i + 1) <==> Finds(run.states[i], run.events[i])
  {
    assert run.Follows(i);
    RunGood(run, i);
    var s, e := run.states[i], run.events[i];
    if e.Store? {
      var task := s.tasks[e.t];
      StoreLeaves(task.base, task.seen, task.proof);
      var delta := SpentBy(task.seen, Accepted(task.proof));
      var after := Codes(run.states[i + 1].stored);
      assert after + (s.spent + delta) == (after + delta) + s.spent;
      Cancel(Codes(task.seen), Codes(s.stored), s.spent);
    }
  }

  /** In every interleaving, up to every moment: no code is ever lost or accepted twice exactly when every
      write has found the codes its request had read. */
  lemma {:induction false} ConservesIff(run: Run, n: nat)
    requires run.Valid() && n <= |run.events|
    ensures (forall i | 0 <= i <= n :: Balanced(run, i)) <==>
            (forall i | 0 <= i < n :: Finds(run.states[i], run.events[i]))
  {
    if n > 0 {
      ConservesIff(run, n - 1);
      if Balanced(run, n - 1) { StepBalance(run, n - 1); }
    }
  }

  /** While that holds, no code is accepted more often than it was enrolled. */
  lemma NoneTwice(run: Run, n: nat)
    requires run.Valid() && n <= |run.events|
    requires forall i | 0 <= i < n :: Finds(run.states[i], run.events[i])
    ensures run.states[n].spent <= Codes(run.states[0].stored)
  {
    ConservesIff(run, n);
    assert Balanced(run, n);
  }

  // ----- One request after the other -----

  /** No write of another request falls between a request's look and its own write. */
  ghost predicate Serial(run: Run)
  {
    forall j, k, i | 0 <= j < k < i < |run.events|
        && run.events[j].Look? && run.events[k].Store? && run.events[i].Store? ::
      run.events[i].t == run.events[j].t ==> run.events[k].t == run.events[j].t
  }

  /** A request under way looked at some moment, and what it saw is what was stored then. */
  ghost predicate LookedAt(run: Run, n: nat, t: nat, j: nat)
    requires n < |run.states| && n <= |run.events|
  {
    && j < n && run.events[j].Look? && run.events[j].t == t && t in run.states[n].tasks
    && run.states[n].tasks[t].seen == run.states[j].stored
    && (forall k | j < k < n && run.events[k].Store? :: run.events[k].t != t)
  }

  lemma {:induction false} LookOf(run: Run, n: nat, t: nat) returns (j: nat)
    requires run.Valid() && n <= |run.events| && t in run.states[n].tasks
    ensures LookedAt(run, n, t, j)
  {
    if n == 0 {
      assert false;
    } else {
      assert run.Follows(n - 1);
      if run.events[n - 1].Look? && run.events[n - 1].t == t {
        j := n - 1;
      } else {
        j := LookOf(run, n - 1, t);
      }
    }
  }

  lemma {:induction false} StoredSince(run: Run, j: nat, n: nat)
    requires run.Valid() && j <= n <= |run.events|
    requires forall k | j <= k < n :: !run.events[k].Store?
    ensures run.states[n].stored == run.states[j].stored
  {
    if j < n {
      StoredSince(run, j, n - 1);
      assert run.Follows(n - 1);
    }
  }

  /** Requests that do not overlap conserve the codes. */
  lemma SerialConserves(run: Run, n: nat)
    requires run.Valid() && Serial(run) && n <= |run.events|
    ensures Balanced(run, n) && run.states[n].spent <= Codes(run.states[0].stored)
  {
    forall i | 0 <= i < n ensures Finds(run.states[i], run.events[i]) {
      SerialFinds(run, i);
    }
    ConservesIff(run, n);
    NoneTwice(run, n);
  }

  lemma SerialFinds(run: Run, i: nat)
    requires run.Valid() && Serial(run) && i < |run.events|
    ensures Finds(run.states[i], run.events[i])
  {
    assert run.Follows(i);
    if run.events[i].Store? {
      var j := LookOf(run, i, run.events[i].t);
      forall k | j <= k < i ensures !run.events[k].Store? {}
      StoredSince(run, j, i);
    }
  }

  // ----- Two requests with one code -----

  const ENROLLED := [Factor(Totp("", true, ["c"], 0))]
  const EMPTIED := [Factor(Totp("", true, [], 0))]
  const USED := ByRecovery(0)
  const SEEN := Looked(ENROLLED, USED)

  const AT_START := State(ENROLLED, map[], {}, multiset{})
  const ONE_LOOKED := State(ENROLLED, map[1 := SEEN], {1}, multiset{})
  const BOTH_LOOKED := State(ENROLLED, map[1 := SEEN, 2 := SEEN], {1, 2}, multiset{})
  const ONE_READY := State(ENROLLED, map[1 := Fetched(ENROLLED, USED, ENROLLED), 2 := SEEN], {1, 2}, multiset{})
  const ONE_DONE := State(EMPTIED, map[2 := SEEN], {1, 2}, multiset{"c"})
  const TWO_READY := State(EMPTIED, map[2 := Fetched(ENROLLED, USED, EMPTIED)], {1, 2}, multiset{"c"})
  const BOTH_DONE := State(EMPTIED, map[], {1, 2}, multiset{"c", "c"})

  const OVERLAPPED := Run(
    [Look(1, USED), Look(2, USED), Fetch(1), Store(1), Fetch(2), Store(2)],
    [AT_START, ONE_LOOKED, BOTH_LOOKED, ONE_READY, ONE_DONE, TWO_READY, BOTH_DONE])

  lemma EnrolledFacts()
    ensures Single(ENROLLED) && Codes(ENROLLED) == multiset{"c"}
    ensures FirstEnabled(ENROLLED) == 0 && Possible(ENROLLED, Accepted(USED))
    ensures SpentBy(ENROLLED, Accepted(USED)) == multiset{"c"}
  {
    assert ENROLLED == [] + ENROLLED;
    Snoc([], ENROLLED[0]);
  }

  lemma StoreEmpties(base: seq<Credential>)
    requires base == ENROLLED || base == EMPTIED
    ensures WrittenBack(base, ENROLLED[0 := Factor(Spent(ENROLLED[0].totp, USED))]) == EMPTIED
  {
    var after := ENROLLED[0 := Factor(Spent(ENROLLED[0].totp, USED))];
    assert Spent(ENROLLED[0].totp, USED).recoveryCodes == [];
    assert after == EMPTIED && FirstFactor(after) == 0;
    assert base[..0] == [] && WithoutFactor(base) == [];
  }

  lemma StoreStep(s: State, t: nat, base: seq<Credential>)
    requires base == ENROLLED || base == EMPTIED
    requires t in s.tasks && s.tasks[t] == Fetched(ENROLLED, USED, base)
    ensures Enabled(s, Store(t))
    ensures Next(s, Store(t)) == s.(stored := EMPTIED, tasks := s.tasks - {t}, spent := s.spent + multiset{"c"})
  {
    EnrolledFacts();
    StoreEmpties(base);
  }

  lemma Looks()
    ensures Enabled(AT_START, Look(1, USED)) && Next(AT_START, Look(1, USED)) == ONE_LOOKED
    ensures Enabled(ONE_LOOKED, Look(2, USED)) && Next(ONE_LOOKED, Look(2, USED)) == BOTH_LOOKED
  {
    EnrolledFacts();
  }

  lemma Stores()
    ensures Enabled(ONE_READY, Store(1)) && Next(ONE_READY, Store(1)) == ONE_DONE
    ensures Enabled(TWO_READY, Store(2)) && Next(TWO_READY, Store(2)) == BOTH_DONE
  {
    StoreStep(ONE_READY, 1, ENROLLED);
    assert ONE_READY.tasks - {1} == map[2 := SEEN];
    StoreStep(TWO_READY, 2, EMPTIED);
    assert TWO_READY.tasks - {2} == map[];
  }

  lemma Fetches()
    ensures Enabled(BOTH_LOOKED, Fetch(1)) && Next(BOTH_LOOKED, Fetch(1)) == ONE_READY
    ensures Enabled(ONE_DONE, Fetch(2)) && Next(ONE_DONE, Fetch(2)) == TWO_READY
  {
  }

  /** Both requests look before either writes: both are let in by the one code enrolled. */
  lemma OneCodeTwice()
    ensures OVERLAPPED.Valid() && !Balanced(OVERLAPPED, 6)
    ensures Codes(OVERLAPPED.states[0].stored) == multiset{"c"} && OVERLAPPED.states[6].spent == multiset{"c", "c"}
  {
    EnrolledFacts();
    Looks();
    Fetches();
    Stores();
    forall i | 0 <= i < |OVERLAPPED.events| ensures OVERLAPPED.Follows(i) {
      assert i == 0 || i == 1 || i == 2 || i == 3 || i == 4 || i == 5;
    }
    assert |Codes(EMPTIED) + multiset{"c", "c"}| > |multiset{"c"}|;
  }
}
