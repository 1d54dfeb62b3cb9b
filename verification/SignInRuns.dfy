/** Every run of password requests, second-factor codes, credential edits and account edits: how each session
    came about, how often a subject can fail, and where the recovery codes went. */
module SignInRuns {
  import opened Common
  import opened Throttle
  import opened Credentials
  import opened SignIn

  /** A run: commands, the state before each and after the last, and the replies. */
  datatype Run = Run(rules: Rules, commands: seq<Command>, worlds: seq<World>, replies: seq<Reply>)
  {
    predicate Shaped()
    {
      |worlds| == |commands| + 1 && |replies| == |commands|
    }

    ghost predicate Valid()
    {
      Shaped() && forall i | 0 <= i < |commands| :: Follows(i)
    }

    ghost predicate Follows(i: nat)
    {
      && i < |commands| && i + 1 < |worlds| && i < |replies|
      && (worlds[i + 1], replies[i]) == Step(rules, worlds[i], commands[i])
    }

    function ListAt(n: nat, account: nat): seq<Credential>
      requires n < |worlds|
    {
      ListIn(worlds[n].lists, account)
    }

    /** Command n opens a challenge under this key. */
    predicate Opens(n: nat, key: string)
    {
      && n < |commands| && n < |replies| && commands[n].Password? && commands[n].request.key == key
      && replies[n] == SecondFactorRequired
    }

    /** Command n is granted an attempt on the challenge under this key. */
    predicate Tries(n: nat, key: string)
    {
      && n < |commands| && n < |worlds| && commands[n].Code? && commands[n].answer.key == key
      && Granting(worlds[n], commands[n].answer)
    }

    /** The attempt succeeds and closes it. */
    predicate Closes(n: nat, key: string)
    {
      Tries(n, key) && n + 1 < |worlds| && key !in worlds[n + 1].pending
    }

    function TriesBetween(b: nat, n: nat, key: string): set<nat>
    {
      set i | b < i < n && Tries(i, key)
    }

    /** At the start nothing is pending and nobody is signed in. */
    predicate Fresh()
    {
      worlds != [] && worlds[0].pending == map[] && worlds[0].sessions == []
    }
  }

  /** Any commands can be run from any state. */
  ghost function RunOf(k: Rules, start: World, commands: seq<Command>): (run: Run)
    ensures run.Valid() && run.rules == k && run.commands == commands && run.worlds[0] == start
  {
    if commands == [] then Run(k, [], [start], []) else
      var n := |commands| - 1;
      var run := RunOf(k, start, commands[..n]);
      var (w, reply) := Step(k, run.worlds[n], commands[n]);
      var longer := Run(k, commands, run.worlds + [w], run.replies + [reply]);
      RunExtends(run, longer, n);
      longer
  }

  lemma RunExtends(run: Run, longer: Run, n: nat)
    requires run.Valid() && |run.commands| == n && |longer.commands| == n + 1 && run.commands == longer.commands[..n]
    requires longer.rules == run.rules && |longer.worlds| == n + 2 && |longer.replies| == n + 1
    requires longer.worlds[..n + 1] == run.worlds && longer.replies[..n] == run.replies
    requires (longer.worlds[n + 1], longer.replies[n]) == Step(run.rules, run.worlds[n], longer.commands[n])
    ensures longer.Valid()
  {
    forall i | 0 <= i < n + 1 ensures longer.Follows(i) {
      if i < n {
        assert run.Follows(i);
        assert longer.worlds[..n + 1][i] == longer.worlds[i] && longer.worlds[..n + 1][i + 1] == longer.worlds[i + 1];
        assert longer.replies[..n][i] == longer.replies[i] && longer.commands[..n][i] == longer.commands[i];
      } else {
        assert longer.worlds[..n + 1][n] == longer.worlds[n];
      }
    }
  }

  // ----- What one step does to one challenge -----

  /** The challenge a convincing request leaves. */
  predicate OpenedFor(k: Rules, w: World, r: LoginRequest, c: Challenge)
  {
    && Convinces(k, w, r, c.account) && HasEnabledFactor(ListIn(w.lists, c.account))
    && c == Challenge(c.account, r.kind, r.t.third + 5 * 60, 5)
  }

  lemma OpeningStep(k: Rules, w: World, r: LoginRequest)
    requires PasswordStep(k, w, r).1 == SecondFactorRequired
    ensures var w' := PasswordStep(k, w, r).0;
            && r.key in w'.pending && OpenedFor(k, w, r, w'.pending[r.key])
            && w'.pending == w.pending[r.key := w'.pending[r.key]]
  {
    AttemptGranted(k, w, r, AttemptIn(k, w, r).1.value.account);
  }

  lemma OtherPasswordStep(k: Rules, w: World, r: LoginRequest)
    requires PasswordStep(k, w, r).1 != SecondFactorRequired
    ensures PasswordStep(k, w, r).0.pending == w.pending
  {
  }

  lemma CodeStepPending(k: Rules, w: World, c: CodeRequest, key: string)
    ensures var w' := CodeStep(k, w, c).0;
            key in w'.pending ==>
              && key in w.pending
              && w'.pending[key] == if key == c.key && Granting(w, c) then Taken(w, c).pending[key] else w.pending[key]
  {
  }

  // ----- Tracking challenges through a run -----

  /** The opening that a pending challenge goes back to. */
  ghost predicate GoesBackTo(run: Run, n: nat, key: string, b: nat)
    requires run.Shaped() && n <= |run.commands|
  {
    && b < n && run.Opens(b, key) && key in run.worlds[n].pending
    && (forall i | b < i < n :: !run.Opens(i, key) && !run.Closes(i, key))
    && var c, r := run.worlds[n].pending[key], run.commands[b].request;
       && OpenedFor(run.rules, run.worlds[b], r, c.(attemptsLeft := 5))
       && c.attemptsLeft + |run.TriesBetween(b, n, key)| == 5
  }

  lemma TriesSnoc(run: Run, b: nat, n: nat, key: string)
    requires b < n
    ensures |run.TriesBetween(b, n + 1, key)| == |run.TriesBetween(b, n, key)| + if run.Tries(n, key) then 1 else 0
  {
    if run.Tries(n, key) {
      assert run.TriesBetween(b, n + 1, key) == run.TriesBetween(b, n, key) + {n};
    } else {
      assert run.TriesBetween(b, n + 1, key) == run.TriesBetween(b, n, key);
    }
  }

  lemma OpenedNow(run: Run, n: nat, key: string)
    requires run.Valid() && run.Opens(n, key)
    ensures GoesBackTo(run, n + 1, key, n)
  {
    assert run.Follows(n);
    OpeningStep(run.rules, run.worlds[n], run.commands[n].request);
    assert run.TriesBetween(n, n + 1, key) == {};
  }

  /** A command that does not open the challenge leaves it as it was, but for an attempt spent. */
  lemma ChallengeStep(run: Run, n: nat, key: string)
    requires run.Shaped() && run.Follows(n) && !run.Opens(n, key) && key in run.worlds[n + 1].pending
    ensures key in run.worlds[n].pending
    ensures run.Tries(n, key) ==>
              && run.worlds[n].pending[key].attemptsLeft > 0
              && run.worlds[n + 1].pending[key] ==
                 run.worlds[n].pending[key].(attemptsLeft := run.worlds[n].pending[key].attemptsLeft - 1)
    ensures !run.Tries(n, key) ==> run.worlds[n + 1].pending[key] == run.worlds[n].pending[key]
  {
    var w := run.worlds[n];
    match run.commands[n]
    case Password(r) =>
      if PasswordStep(run.rules, w, r).1 == SecondFactorRequired {
        OpeningStep(run.rules, w, r);
      } else {
        OtherPasswordStep(run.rules, w, r);
      }
    case Code(c) => CodeStepPending(run.rules, w, c, key);
    case _ =>
  }

  lemma StillGoesBack(run: Run, n: nat, key: string, b: nat)
    requires run.Shaped() && run.Follows(n) && !run.Opens(n, key) && key in run.worlds[n + 1].pending
    requires GoesBackTo(run, n, key, b)
    ensures GoesBackTo(run, n + 1, key, b)
  {
    ChallengeStep(run, n, key);
    TriesSnoc(run, b, n, key);
  }

  lemma GoesBackStep(run: Run, n: nat, m: nat, key: string)
    requires run.Valid() && m == n + 1 <= |run.commands| && key in run.worlds[m].pending
    requires key in run.worlds[n].pending ==> exists b :: GoesBackTo(run, n, key, b)
    ensures exists b :: GoesBackTo(run, m, key, b)
  {
    assert run.Follows(n);
    if run.Opens(n, key) {
      OpenedNow(run, n, key);
    } else {
      ChallengeStep(run, n, key);
      var b :| GoesBackTo(run, n, key, b);
      StillGoesBack(run, n, key, b);
    }
  }

  lemma {:induction false} PendingGoesBack(run: Run, n: nat, key: string)
    requires run.Valid() && run.Fresh() && n <= |run.commands| && key in run.worlds[n].pending
    ensures exists b :: GoesBackTo(run, n, key, b)
    decreases n
  {
    if key in run.worlds[n - 1].pending { PendingGoesBack(run, n - 1, key); }
    GoesBackStep(run, n - 1, n, key);
  }

  // ----- How a session came about -----

  /** The challenge opened at b is the latest under its key and still open at n, and was opened by a convincing
      request for the session's account and kind when that account's list had an enabled factor. */
  ghost predicate Opener(run: Run, b: nat, n: nat, key: string, s: Session)
    requires run.Shaped() && n <= |run.commands|
  {
    && b < n && run.Opens(b, key) && (forall i | b < i < n :: !run.Opens(i, key) && !run.Closes(i, key))
    && Convinces(run.rules, run.worlds[b], run.commands[b].request, s.account)
    && HasEnabledFactor(run.ListAt(b, s.account)) && s.kind == run.commands[b].request.kind
  }

  /** Session s of the code request at n came through the challenge opened at b: in time, at most its fifth
      attempt, and with a code that the list of this moment accepts, which gives up exactly what proves it. */
  ghost predicate Challenged(run: Run, b: nat, n: nat, s: Session)
    requires run.Shaped() && n < |run.commands| && run.commands[n].Code?
  {
    var c := run.commands[n].answer;
    && Opener(run, b, n, c.key, s)
    && c.now < run.commands[b].request.t.third + 5 * 60
    && |run.TriesBetween(b, n + 1, c.key)| <= 5
    && Acceptable(run.ListAt(n, s.account), c.code, c.unixNow, run.rules.checks)
    && run.ListAt(n + 1, s.account) == Yielded(run.ListAt(n, s.account), c, run.rules.checks)
    && s.account in run.worlds[n].accounts
    && s.username == c.username && s.isAdmin == run.worlds[n].accounts[s.account].isAdmin
  }

  /** The list left after its proof of a code is written back. */
  ghost function Yielded(stored: seq<Credential>, c: CodeRequest, k: Checks): seq<Credential>
    requires Acceptable(stored, c.code, c.unixNow, k)
  {
    After(stored, Accepted(ProofOf(stored, c.code, c.unixNow, k)))
  }

  /** A session of the recovery administrator. */
  predicate RecoverySession(r: LoginRequest, s: Session)
  {
    r.recovery == Some(Ok(true)) && r.kind == Admin && s == Session(0, r.username, true, Admin)
  }

  /** A session for a password alone. */
  ghost predicate PasswordSession(run: Run, n: nat, s: Session)
    requires run.Shaped() && n < |run.commands| && run.commands[n].Password?
  {
    var r := run.commands[n].request;
    && Convinces(run.rules, run.worlds[n], r, s.account) && !HasEnabledFactor(run.ListAt(n, s.account))
    && s == Session(s.account, r.username, run.worlds[n].accounts[s.account].isAdmin, r.kind)
  }

  ghost predicate Rightful(run: Run, n: nat, s: Session)
    requires run.Shaped() && n < |run.commands|
  {
    match run.commands[n]
    case Password(r) => RecoverySession(r, s) || PasswordSession(run, n, s)
    case Code(_) => exists b :: Challenged(run, b, n, s)
    case _ => false
  }

  /** Some command before n opened this session, rightfully. */
  ghost predicate Acquired(run: Run, n: nat, s: Session)
    requires run.Shaped() && n <= |run.commands|
  {
    exists m | 0 <= m < n :: run.replies[m] == Opened(s) && Rightful(run, m, s)
  }

  lemma CodeLeaves(k: Rules, w: World, c: CodeRequest, s: Session)
    requires CodeStep(k, w, c).1 == Opened(s)
    ensures Acceptable(ListIn(w.lists, s.account), c.code, c.unixNow, k.checks)
    ensures ListIn(CodeStep(k, w, c).0.lists, s.account) == Yielded(ListIn(w.lists, s.account), c, k.checks)
    ensures c.key !in CodeStep(k, w, c).0.pending
  {
    CodeSessionIff(k, w, c, s);
    AcceptedDoesNotFail(ListIn(w.lists, s.account), c.code, c.unixNow, k.checks);
    WithListReads(w.lists, s.account, Yielded(ListIn(w.lists, s.account), c, k.checks), s.account);
  }

  lemma OpenerOf(run: Run, b: nat, n: nat, key: string, s: Session)
    requires run.Shaped() && n <= |run.commands| && GoesBackTo(run, n, key, b)
    requires s.account == run.worlds[n].pending[key].account && s.kind == run.worlds[n].pending[key].kind
    ensures Opener(run, b, n, key, s)
    ensures run.worlds[n].pending[key].expiresAt == run.commands[b].request.t.third + PENDING_TTL
    ensures |run.TriesBetween(b, n, key)| + run.worlds[n].pending[key].attemptsLeft == PENDING_ATTEMPTS
  {
  }

  lemma CodeIsChallenged(run: Run, n: nat, s: Session) returns (b: nat)
    requires run.Valid() && run.Fresh() && n < |run.commands| && run.commands[n].Code? && run.replies[n] == Opened(s)
    ensures Challenged(run, b, n, s) && run.Closes(n, run.commands[n].answer.key)
  {
    var c, w := run.commands[n].answer, run.worlds[n];
    assert run.Follows(n);
    CodeSessionIff(run.rules, w, c, s);
    CodeLeaves(run.rules, w, c, s);
    PendingGoesBack(run, n, c.key);
    b :| GoesBackTo(run, n, c.key, b);
    OpenerOf(run, b, n, c.key, s);
    TriesSnoc(run, b, n, c.key);
  }

  /** Every reply that opens a session does so rightfully, in every run. */
  lemma OpeningsAreRightful(run: Run, n: nat, s: Session)
    requires run.Valid() && run.Fresh() && n < |run.commands| && run.replies[n] == Opened(s)
    ensures Rightful(run, n, s)
  {
    assert run.Follows(n);
    match run.commands[n]
    case Password(r) => PasswordSessionIff(run.rules, run.worlds[n], r, s);
    case Code(c) => var b := CodeIsChallenged(run, n, s);
    case _ =>
  }

  lemma StepSessions(k: Rules, w: World, command: Command)
    ensures var (w', reply) := Step(k, w, command);
            w'.sessions == w.sessions + if reply.Opened? then [reply.session] else []
  {
  }

  lemma {:induction false} SessionWasOpened(run: Run, n: nat, j: nat) returns (m: nat)
    requires run.Valid() && run.Fresh() && n <= |run.commands| && j < |run.worlds[n].sessions|
    ensures m < n && run.replies[m] == Opened(run.worlds[n].sessions[j])
    decreases n
  {
    assert run.Follows(n - 1);
    StepSessions(run.rules, run.worlds[n - 1], run.commands[n - 1]);
    if j < |run.worlds[n - 1].sessions| {
      m := SessionWasOpened(run, n - 1, j);
    } else {
      m := n - 1;
    }
  }

  /** Every session of every state of every run was opened rightfully by some command before. */
  lemma SessionsAreRightful(run: Run, n: nat, j: nat)
    requires run.Valid() && run.Fresh() && n <= |run.commands| && j < |run.worlds[n].sessions|
    ensures Acquired(run, n, run.worlds[n].sessions[j])
  {
    var m := SessionWasOpened(run, n, j);
    OpeningsAreRightful(run, m, run.worlds[n].sessions[j]);
  }

  /** A session for an account whose list has an enabled factor, other than the recovery administrator's, is
      only ever opened by a code, through a challenge. */
  lemma FactorNeedsChallenge(run: Run, n: nat, s: Session)
    requires run.Valid() && run.Fresh() && n < |run.commands| && run.replies[n] == Opened(s)
    requires HasEnabledFactor(run.ListAt(n, s.account))
    requires run.commands[n].Password? ==> !RecoverySession(run.commands[n].request, s)
    ensures run.commands[n].Code? && exists b :: Challenged(run, b, n, s)
  {
    OpeningsAreRightful(run, n, s);
  }

  /** A challenge yields one session at most. */
  lemma OneSessionPerChallenge(run: Run, b: nat, m: nat, n: nat, s: Session, s': Session)
    requires run.Valid() && run.Fresh() && m < |run.commands| && n < |run.commands|
    requires run.commands[m].Code? && run.commands[n].Code?
    requires run.replies[m] == Opened(s) && run.replies[n] == Opened(s')
    requires run.commands[m].answer.key == run.commands[n].answer.key
    requires Challenged(run, b, m, s) && Challenged(run, b, n, s')
    ensures m == n
  {
    var _ := CodeIsChallenged(run, m, s);
    var _ := CodeIsChallenged(run, n, s');
  }

  // ----- The second step looks at neither the active flag nor the role -----

  /** Disabling or demoting the account between the steps changes only the role the session carries. */
  lemma StandingNotRechecked(k: Rules, w: World, c: CodeRequest, record: Account)
    requires Granting(w, c) && w.pending[c.key].account in w.accounts
    ensures var id := w.pending[c.key].account;
            var r, r' := CodeStep(k, w, c).1, CodeStep(k, w.(accounts := w.accounts[id := record]), c).1;
            && (r.Opened? <==> r'.Opened?)
            && (r.Opened? ==> r' == Opened(r.session.(isAdmin := record.isAdmin)))
  {
  }

  /** An administrator session opened by a code carries the administrator's role exactly when the account has
      it at that moment; at the password step it had. */
  lemma AdminByCode(run: Run, n: nat, s: Session)
    requires run.Valid() && run.Fresh() && n < |run.commands| && run.commands[n].Code?
    requires run.replies[n] == Opened(s) && s.kind == Admin
    ensures s.account in run.worlds[n].accounts && (s.isAdmin <==> run.worlds[n].accounts[s.account].isAdmin)
    ensures exists b | 0 <= b < n :: s.account in run.worlds[b].accounts && run.worlds[b].accounts[s.account].isAdmin
  {
    var b := CodeIsChallenged(run, n, s);
    assert Convinces(run.rules, run.worlds[b], run.commands[b].request, s.account);
  }

  const LENIENT: Rules :=
    Rules(Checks((s, h) => Ok(true), (s, h) => Ok(true), (s, h) => Ok(true), (f, c, t) => Ok(true)), DEFAULT_POLICY)

  const ADMIN_LOGIN := LoginRequest(Admin, "u", "u", "p", None, None, Ok(Some(1)), 0, Moments(0, 0, 0), true)

  const ENROLLED := [PrimaryPassword("h", 0), Factor(Totp("s", true, [], 0))]

  /** An administrator signs in, is disabled and demoted between the steps, and answers the challenge. */
  ghost function DemotedRun(): Run
  {
    RunOf(LENIENT, World(map[1 := Account(true, true)], map[1 := ENROLLED], map[], map[], []),
        [Password(ADMIN_LOGIN), PutAccount(1, Account(false, false)),
         Code(CodeRequest("u", "u", "c", 1, 1, true, true))])
  }

  lemma EnrolledFacts()
    ensures HasEnabledFactor(ENROLLED) && FirstEnabled(ENROLLED) == 1
    ensures Lets(true, ENROLLED, "p", LENIENT.checks) && Acceptable(ENROLLED, "c", 1, LENIENT.checks)
  {
    assert ENROLLED[0].PrimaryPassword? && ENROLLED[1].totp.enabled;
  }

  lemma AdminLoginOpens(w: World)
    requires w.accounts == map[1 := Account(true, true)] && w.lists == map[1 := ENROLLED] && w.history == map[]
    ensures PasswordStep(LENIENT, w, ADMIN_LOGIN).1 == SecondFactorRequired
  {
    EnrolledFacts();
    assert Convinces(LENIENT, w, ADMIN_LOGIN, 1);
    ChallengeIff(LENIENT, w, ADMIN_LOGIN);
  }

  /** The session is of the administrator kind, for an account that is neither active nor an administrator. */
  lemma DemotedStillGetsIn()
    ensures DemotedRun().Valid() && DemotedRun().Fresh()
    ensures DemotedRun().worlds[2].accounts == map[1 := Account(false, false)]
    ensures DemotedRun().replies[2] == Opened(Session(1, "u", false, Admin))
  {
    var run, s := DemotedRun(), Session(1, "u", false, Admin);
    var w0, w1, w2, c := run.worlds[0], run.worlds[1], run.worlds[2], run.commands[2].answer;
    assert run.Follows(0) && run.Follows(1) && run.Follows(2);
    AdminLoginOpens(w0);
    OpeningStep(LENIENT, w0, ADMIN_LOGIN);
    assert w1 == PasswordStep(LENIENT, w0, ADMIN_LOGIN).0;
    assert w2 == w1.(accounts := w1.accounts[1 := Account(false, false)]);
    EnrolledFacts();
    CodeSessionIff(LENIENT, w2, c, s);
  }

  // ----- Every run keeps the limits and the lists -----

  /** The clock does not run backwards within a request. */
  predicate Timed(commands: seq<Command>)
  {
    forall i | 0 <= i < |commands| && commands[i].Password? ::
      commands[i].request.start <= commands[i].request.t.first && InOrder(0, commands[i].request.t)
  }

  lemma PasswordKeepsLimits(k: Rules, w: World, r: LoginRequest)
    requires AllLimited(w.history, k.policy) && r.start <= r.t.first && InOrder(0, r.t)
    ensures AllLimited(PasswordStep(k, w, r).0.history, k.policy)
  {
    if !LockedAt(w.history, r.ip, None, k.policy, r.start) {
      StaysUnlocked(w.history, r.ip, None, k.policy, r.start, r.t.first);
      if r.recovery.Some? {
        var mark := if r.recovery.value == Ok(true) then Cleared else Failed(r.t.first);
        NotedLimited(w.history, r.ip, None, mark, k.policy);
      } else {
        AttemptKeepsLimits(w.history, r.ip, Found(w, r.resolved), VerdictOn(k, w, r), k.policy, r.t);
      }
    }
  }

  /** In every run no chain of failures, of an address or of an account, passes the limit. */
  lemma {:induction false} LimitsHold(run: Run, n: nat)
    requires run.Valid() && n <= |run.commands| && Timed(run.commands)
    requires AllLimited(run.worlds[0].history, run.rules.policy)
    ensures AllLimited(run.worlds[n].history, run.rules.policy)
  {
    if n > 0 {
      LimitsHold(run, n - 1);
      assert run.Follows(n - 1);
      match run.commands[n - 1]
      case Password(r) => PasswordKeepsLimits(run.rules, run.worlds[n - 1], r);
      case _ =>
    }
  }

  lemma WithListGood(lists: map<nat, seq<Credential>>, account: nat, cs: seq<Credential>)
    requires ListsGood(lists) && Single(cs)
    ensures ListsGood(WithList(lists, account, cs))
  {
  }

  lemma ListInSingle(lists: map<nat, seq<Credential>>, account: nat)
    requires ListsGood(lists)
    ensures Single(ListIn(lists, account))
  {
  }

  /** What a code request takes from an account's codes. */
  ghost function SpentIn(k: Rules, w: World, command: Command, a: nat): multiset<string>
  {
    if command.Code? && Redeems(k, w, command.answer) && w.pending[command.answer.key].account == a then
      var stored, c := ListIn(w.lists, a), command.answer;
      SpentBy(stored, Accepted(ProofOf(stored, c.code, c.unixNow, k.checks)))
    else multiset{}
  }

  /** The code is accepted and its proof written back, whether or not a session can be stored. */
  predicate Redeems(k: Rules, w: World, c: CodeRequest)
  {
    && Granting(w, c) && w.pending[c.key].account in w.accounts && c.canWrite
    && Acceptable(ListIn(w.lists, w.pending[c.key].account), c.code, c.unixNow, k.checks)
  }

  lemma CodeStepLists(k: Rules, w: World, c: CodeRequest)
    ensures var id := if Granting(w, c) then w.pending[c.key].account else 0;
            CodeStep(k, w, c).0.lists ==
            if Redeems(k, w, c) then WithList(w.lists, id, Yielded(ListIn(w.lists, id), c, k.checks)) else w.lists
  {
    if Redeems(k, w, c) {
      AcceptedDoesNotFail(ListIn(w.lists, w.pending[c.key].account), c.code, c.unixNow, k.checks);
    }
  }

  lemma PasswordStepLists(k: Rules, w: World, r: LoginRequest)
    ensures PasswordStep(k, w, r).0.lists == w.lists
  {
  }

  /** This command enrols, clears or removes the account's factor. */
  predicate Reenrols(command: Command, a: nat)
  {
    && command.EditList? && command.account == a
    && (command.edit.SetFactor? || command.edit.ClearFactor? || command.edit.Remove?)
  }

  lemma CodeConserves(k: Rules, w: World, c: CodeRequest, a: nat)
    requires ListsGood(w.lists)
    ensures ListsGood(CodeStep(k, w, c).0.lists)
    ensures Codes(ListIn(CodeStep(k, w, c).0.lists, a)) + SpentIn(k, w, Code(c), a) == Codes(ListIn(w.lists, a))
  {
    CodeStepLists(k, w, c);
    if Redeems(k, w, c) {
      var id := w.pending[c.key].account;
      var stored := ListIn(w.lists, id);
      var proof := ProofOf(stored, c.code, c.unixNow, k.checks);
      ListInSingle(w.lists, id);
      AcceptedConserves(stored, proof);
      WithListGood(w.lists, id, After(stored, Accepted(proof)));
      WithListReads(w.lists, id, After(stored, Accepted(proof)), a);
    }
  }

  lemma EditConservesCodes(w: World, account: nat, edit: ListEdit, a: nat)
    requires ListsGood(w.lists)
    ensures var lists := WithList(w.lists, account, EditedList(ListIn(w.lists, account), edit));
            && ListsGood(lists)
            && (!Reenrols(EditList(account, edit), a) ==> Codes(ListIn(lists, a)) == Codes(ListIn(w.lists, a)))
  {
    var cs := ListIn(w.lists, account);
    ListInSingle(w.lists, account);
    EditedListKeeps(cs, edit);
    WithListGood(w.lists, account, EditedList(cs, edit));
    WithListReads(w.lists, account, EditedList(cs, edit), a);
  }

  lemma StepConserves(k: Rules, w: World, command: Command, a: nat)
    requires ListsGood(w.lists)
    ensures ListsGood(Step(k, w, command).0.lists)
    ensures !Reenrols(command, a) ==>
              Codes(ListIn(Step(k, w, command).0.lists, a)) + SpentIn(k, w, command, a) == Codes(ListIn(w.lists, a))
  {
    match command
    case Password(r) => PasswordStepLists(k, w, r);
    case Code(c) => CodeConserves(k, w, c, a);
    case EditList(account, edit) => EditConservesCodes(w, account, edit, a);
    case _ =>
  }

  /** In every run each list has at most one primary password and one factor. */
  lemma {:induction false} ListsHold(run: Run, n: nat)
    requires run.Valid() && n <= |run.commands| && ListsGood(run.worlds[0].lists)
    ensures ListsGood(run.worlds[n].lists)
  {
    if n > 0 {
      ListsHold(run, n - 1);
      assert run.Follows(n - 1);
      StepConserves(run.rules, run.worlds[n - 1], run.commands[n - 1], 0);
    }
  }

  function Total(spent: seq<multiset<string>>, i: nat, n: nat): multiset<string>
    requires i <= n <= |spent|
  {
    if n == i then multiset{} else Total(spent, i, n - 1) + spent[n - 1]
  }

  lemma {:induction false} Telescope(codes: seq<multiset<string>>, spent: seq<multiset<string>>, i: nat, n: nat)
    requires i <= n <= |spent| && |codes| == |spent| + 1
    requires forall m | i <= m < n :: codes[m + 1] + spent[m] == codes[m]
    ensures codes[n] + Total(spent, i, n) == codes[i]
  {
    if n > i {
      Telescope(codes, spent, i, n - 1);
      assert codes[n - 1 + 1] + spent[n - 1] == codes[n - 1];
    }
  }

  /** What each command of a run takes from an account's codes. */
  ghost function SpentAlong(run: Run, a: nat): seq<multiset<string>>
    requires run.Shaped()
  {
    seq(|run.commands|, m requires 0 <= m < |run.commands| => SpentIn(run.rules, run.worlds[m], run.commands[m], a))
  }

  ghost function CodesAlong(run: Run, a: nat): seq<multiset<string>>
  {
    seq(|run.worlds|, m requires 0 <= m < |run.worlds| => Codes(run.ListAt(m, a)))
  }

  lemma CommandConserves(run: Run, n: nat, a: nat)
    requires run.Valid() && n < |run.commands| && ListsGood(run.worlds[0].lists) && !Reenrols(run.commands[n], a)
    ensures Codes(run.ListAt(n + 1, a)) + SpentIn(run.rules, run.worlds[n], run.commands[n], a) ==
            Codes(run.ListAt(n, a))
  {
    ListsHold(run, n);
    assert run.Follows(n);
    StepConserves(run.rules, run.worlds[n], run.commands[n], a);
  }

  lemma AlongConserves(run: Run, m: nat, a: nat, codes: seq<multiset<string>>, spent: seq<multiset<string>>)
    requires run.Valid() && m < |run.commands| && ListsGood(run.worlds[0].lists) && !Reenrols(run.commands[m], a)
    requires codes == CodesAlong(run, a) && spent == SpentAlong(run, a)
    ensures codes[m + 1] + spent[m] == codes[m]
  {
    CommandConserves(run, m, a);
  }

  /** In every run, between enrolments, the codes stored for an account and the codes spent since are together
      the codes it had: with requests one at a time none is lost and none is accepted twice. */
  lemma RunConservesCodes(run: Run, i: nat, n: nat, a: nat)
    requires run.Valid() && i <= n <= |run.commands| && ListsGood(run.worlds[0].lists)
    requires forall m | i <= m < n :: !Reenrols(run.commands[m], a)
    ensures Codes(run.ListAt(n, a)) + Total(SpentAlong(run, a), i, n) == Codes(run.ListAt(i, a))
  {
    var codes, spent := CodesAlong(run, a), SpentAlong(run, a);
    forall m | i <= m < n ensures codes[m + 1] + spent[m] == codes[m] { AlongConserves(run, m, a, codes, spent); }
    Telescope(codes, spent, i, n);
    assert codes[n] == Codes(run.ListAt(n, a)) && codes[i] == Codes(run.ListAt(i, a));
  }
}
