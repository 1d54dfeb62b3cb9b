/** Signing in over HTTP as a state machine: what each request answers and what it leaves behind. Login runs
    the same steps on objects; SignInRuns proves what holds of every run. */
module SignIn {
  import opened Common
  import opened Throttle
  import opened Credentials

  const PENDING_TTL: nat := 5 * 60
  const PENDING_ATTEMPTS: nat := 5

  datatype Kind = Webmail | Admin

  datatype Challenge = Challenge(account: nat, kind: Kind, expiresAt: nat, attemptsLeft: nat)

  datatype Session = Session(account: nat, username: string, isAdmin: bool, kind: Kind)

  datatype Account = Account(active: bool, isAdmin: bool)

  datatype Reply =
    | TooMany | Unauthorized | AdminRequired | SecondFactorRequired | ServerError | Opened(session: Session) | Done

  /** Accounts, credential lists, open challenges by key, everything the throttle recorded, and the sessions. */
  datatype World = World(
    accounts: map<nat, Account>, lists: map<nat, seq<Credential>>, pending: map<string, Challenge>,
    history: History, sessions: seq<Session>)

  datatype Rules = Rules(checks: Checks, policy: Policy)

  // ----- Requests -----

  /** A password. key is the user name trimmed and lower-cased; recovery is the outcome of the recovery
      administrator's check when the name is theirs; resolved is the account the name leads to in the indexes;
      `start` is when the handler first looks at the throttle, t when attempt_login does; canStore says
      whether a session can be stored. */
  datatype LoginRequest = LoginRequest(
    kind: Kind, key: string, username: string, password: string, ip: Option<string>, recovery: Option<Result<bool>>,
    resolved: Result<Option<nat>>, start: nat, t: Moments, canStore: bool)

  /** A second-factor code, already trimmed and neither blank nor too long. */
  datatype CodeRequest = CodeRequest(
    key: string, username: string, code: string, now: nat, unixNow: nat, canWrite: bool, canStore: bool)

  datatype Command =
    | Password(request: LoginRequest)
    | Code(answer: CodeRequest)
    | EditList(account: nat, edit: ListEdit)
    | PutAccount(id: nat, record: Account)
    | DropAccount(id: nat)

  predicate Open(c: Challenge, now: nat)
  {
    now < c.expiresAt && c.attemptsLeft > 0
  }

  function Issue(w: World, s: Session, canStore: bool): (World, Reply)
  {
    if canStore then (w.(sessions := w.sessions + [s]), Opened(s)) else (w, ServerError)
  }

  /** An index entry without a record is an error. */
  function Found(w: World, resolved: Result<Option<nat>>): Result<Option<nat>>
  {
    if resolved.Ok? && resolved.value.Some? && resolved.value.value !in w.accounts then Err(NotFound) else resolved
  }

  // ----- The password step -----

  /** The recovery administrator's own password, outside the account lists. */
  function Recover(w: World, r: LoginRequest, verified: Result<bool>): (World, Reply)
  {
    if verified == Ok(true) then
      var w' := w.(history := Noted(w.history, r.ip, None, Cleared));
      if r.kind != Admin then (w', AdminRequired)
      else Issue(w', Session(0, r.username, true, Admin), r.canStore)
    else (w.(history := Noted(w.history, r.ip, None, Failed(r.t.first))), Unauthorized)
  }

  /** After a correct password: refuse, open a challenge, or issue a session. */
  function Proceed(w: World, r: LoginRequest, id: nat): (World, Reply)
    requires id in w.accounts
  {
    if r.kind == Admin && !w.accounts[id].isAdmin then (w, AdminRequired)
    else if HasEnabledFactor(ListIn(w.lists, id)) then
      var challenge := Challenge(id, r.kind, r.t.third + PENDING_TTL, PENDING_ATTEMPTS);
      (w.(pending := w.pending[r.key := challenge]), SecondFactorRequired)
    else Issue(w, Session(id, r.username, w.accounts[id].isAdmin, r.kind), r.canStore)
  }

  /** What checking the password gives. */
  function VerdictOn(k: Rules, w: World, r: LoginRequest): Result<bool>
  {
    var found := Found(w, r.resolved);
    if found.Ok? && found.value.Some? then
      Verdict(w.accounts[found.value.value].active, ListIn(w.lists, found.value.value), r.password, k.checks)
    else Ok(false)
  }

  function AttemptIn(k: Rules, w: World, r: LoginRequest): (World, Result<Attempt>)
  {
    var found, verdict := Found(w, r.resolved), VerdictOn(k, w, r);
    (w.(history := Recorded(w.history, r.ip, found, verdict, k.policy, r.t)),
     Answer(w.history, r.ip, found, verdict, k.policy, r.t))
  }

  function PasswordStep(k: Rules, w: World, r: LoginRequest): (World, Reply)
  {
    if LockedAt(w.history, r.ip, None, k.policy, r.start) then (w, TooMany)
    else if r.recovery.Some? then Recover(w, r, r.recovery.value)
    else
      var (w', attempt) := AttemptIn(k, w, r);
      if attempt == Ok(Throttled) then (w', TooMany)
      else if attempt.Ok? && attempt.value.Granted? then Proceed(w', r, attempt.value.account)
      else (w', Unauthorized)
  }

  // ----- The second-factor step -----

  /** The proof a list gives of a code it accepts. */
  ghost function ProofOf(stored: seq<Credential>, code: string, at: nat, k: Checks): (proof: Proof)
    requires Acceptable(stored, code, at, k)
    ensures Proves(stored[FirstEnabled(stored)].totp, code, at, k, proof) && Possible(stored, Accepted(proof))
  {
    var totp := stored[FirstEnabled(stored)].totp;
    if k.code(totp, code, at) == Ok(true) then ByCode else
      FirstCodeExists(totp.recoveryCodes, code, k.recovery);
      var i: nat :| FirstCode(totp.recoveryCodes, code, k.recovery, i);
      ByRecovery(i)
  }

  lemma FirstCodeExists(codes: seq<string>, code: string, verify: Check)
    requires forall i | 0 <= i < |codes| :: verify(code, codes[i]).Ok?
    requires exists i | 0 <= i < |codes| :: verify(code, codes[i]) == Ok(true)
    ensures exists i: nat :: FirstCode(codes, code, verify, i)
  {
    var i :| 0 <= i < |codes| && verify(code, codes[i]) == Ok(true);
    FirstCodeBelow(codes, code, verify, i);
  }

  lemma {:induction false} FirstCodeBelow(codes: seq<string>, code: string, verify: Check, i: nat)
    requires forall j | 0 <= j < |codes| :: verify(code, codes[j]).Ok?
    requires i < |codes| && verify(code, codes[i]) == Ok(true)
    ensures exists j: nat :: FirstCode(codes, code, verify, j)
  {
    if !FirstCode(codes, code, verify, i) {
      var j :| 0 <= j < i && verify(code, codes[j]) != Ok(false);
      YesOrNo(verify(code, codes[j]));
      FirstCodeBelow(codes, code, verify, j);
    }
  }

  /** From an attempt granted to a session: the code is checked, what it used is written back, the challenge is
      closed, and only then is the session stored. */
  ghost function Redeem(k: Rules, w: World, c: CodeRequest, id: nat, kind: Kind): (World, Reply)
  {
    var stored := ListIn(w.lists, id);
    if id !in w.accounts then (w, Unauthorized)
    else if Fails(stored, c.code, c.unixNow, k.checks) then (w, ServerError)
    else if !Acceptable(stored, c.code, c.unixNow, k.checks) then (w, Unauthorized)
    else if !c.canWrite then (w, ServerError)
    else
      var left := After(stored, Accepted(ProofOf(stored, c.code, c.unixNow, k.checks)));
      var w' := w.(lists := WithList(w.lists, id, left), pending := w.pending - {c.key});
      Issue(w', Session(id, c.username, w.accounts[id].isAdmin, kind), c.canStore)
  }

  predicate Granting(w: World, c: CodeRequest)
  {
    c.key in w.pending && Open(w.pending[c.key], c.now)
  }

  /** One attempt fewer on an open challenge. */
  function Taken(w: World, c: CodeRequest): World
    requires Granting(w, c)
  {
    var challenge := w.pending[c.key];
    w.(pending := w.pending[c.key := challenge.(attemptsLeft := challenge.attemptsLeft - 1)])
  }

  ghost function CodeStep(k: Rules, w: World, c: CodeRequest): (World, Reply)
  {
    if Granting(w, c) then Redeem(k, Taken(w, c), c, w.pending[c.key].account, w.pending[c.key].kind)
    else (w.(pending := w.pending - {c.key}), Unauthorized)
  }

  ghost function Step(k: Rules, w: World, command: Command): (World, Reply)
  {
    match command
    case Password(r) => PasswordStep(k, w, r)
    case Code(c) => CodeStep(k, w, c)
    case EditList(a, edit) => (w.(lists := WithList(w.lists, a, EditedList(ListIn(w.lists, a), edit))), Done)
    case PutAccount(id, record) => (w.(accounts := w.accounts[id := record]), Done)
    case DropAccount(id) => (w.(accounts := w.accounts - {id}), Done)
  }

  // ----- What a reply means -----

  /** The request got past the throttle, and its password is that of an active account that may have this
      kind of session. */
  predicate Convinces(k: Rules, w: World, r: LoginRequest, id: nat)
  {
    && r.recovery.None? && r.resolved == Ok(Some(id)) && id in w.accounts
    && !LockedAt(w.history, r.ip, None, k.policy, r.start) && Reached(w.history, r.ip, r.resolved, k.policy, r.t)
    && Lets(w.accounts[id].active, ListIn(w.lists, id), r.password, k.checks)
    && (r.kind == Admin ==> w.accounts[id].isAdmin)
  }

  lemma AttemptGranted(k: Rules, w: World, r: LoginRequest, id: nat)
    ensures AttemptIn(k, w, r).1 == Ok(Attempt.Granted(id)) <==>
            && r.resolved == Ok(Some(id)) && id in w.accounts && Reached(w.history, r.ip, r.resolved, k.policy, r.t)
            && Lets(w.accounts[id].active, ListIn(w.lists, id), r.password, k.checks)
    ensures AttemptIn(k, w, r).0 == w.(history := AttemptIn(k, w, r).0.history)
  {
  }

  /** A challenge is opened exactly for a convincing request when the account's list has an enabled factor. */
  lemma ChallengeIff(k: Rules, w: World, r: LoginRequest)
    ensures PasswordStep(k, w, r).1 == SecondFactorRequired <==>
            exists id :: Convinces(k, w, r, id) && HasEnabledFactor(ListIn(w.lists, id))
  {
    var (w', attempt) := AttemptIn(k, w, r);
    if attempt.Ok? && attempt.value.Granted? {
      AttemptGranted(k, w, r, attempt.value.account);
    }
    forall id | Convinces(k, w, r, id) ensures attempt == Ok(Attempt.Granted(id)) { AttemptGranted(k, w, r, id); }
  }

  /** A password alone opens a session exactly for the recovery administrator asking for an administrator
      session, or for a convincing request when the list has no enabled factor. */
  lemma PasswordSessionIff(k: Rules, w: World, r: LoginRequest, s: Session)
    ensures PasswordStep(k, w, r).1 == Opened(s) <==>
            && r.canStore
            && (|| (&& !LockedAt(w.history, r.ip, None, k.policy, r.start) && r.recovery == Some(Ok(true))
                    && r.kind == Admin && s == Session(0, r.username, true, Admin))
                || (&& Convinces(k, w, r, s.account) && !HasEnabledFactor(ListIn(w.lists, s.account))
                    && s == Session(s.account, r.username, w.accounts[s.account].isAdmin, r.kind)))
  {
    var (w', attempt) := AttemptIn(k, w, r);
    if attempt.Ok? && attempt.value.Granted? { AttemptGranted(k, w, r, attempt.value.account); }
    if Convinces(k, w, r, s.account) { AttemptGranted(k, w, r, s.account); }
  }

  lemma AcceptedDoesNotFail(cs: seq<Credential>, code: string, at: nat, k: Checks)
    requires Acceptable(cs, code, at, k)
    ensures !Fails(cs, code, at, k)
  {
  }

  /** A code opens a session exactly on an open challenge of an existing account whose first enabled factor
      accepts it, when both writes succeed; the session is the challenge's, with the role of this moment. */
  lemma CodeSessionIff(k: Rules, w: World, c: CodeRequest, s: Session)
    ensures CodeStep(k, w, c).1 == Opened(s) <==>
            && Granting(w, c) && c.canWrite && c.canStore && s.account in w.accounts
            && Acceptable(ListIn(w.lists, s.account), c.code, c.unixNow, k.checks)
            && s.account == w.pending[c.key].account && s.kind == w.pending[c.key].kind
            && s.username == c.username && s.isAdmin == w.accounts[s.account].isAdmin
  {
    if Granting(w, c) && Acceptable(ListIn(w.lists, w.pending[c.key].account), c.code, c.unixNow, k.checks) {
      AcceptedDoesNotFail(ListIn(w.lists, w.pending[c.key].account), c.code, c.unixNow, k.checks);
    }
  }

  // ----- What a reply to a password means for the throttle -----

  /** The account a request is for, when it is not the recovery administrator's and the account exists. */
  function AccountIn(w: World, r: LoginRequest): Option<nat>
  {
    if r.recovery.None? then AccountOf(Found(w, r.resolved)) else None
  }

  /** Looking the user up, or checking the secret, ends in an error. */
  predicate Broken(k: Rules, w: World, r: LoginRequest)
  {
    r.recovery.None? && (Found(w, r.resolved).Err? || VerdictOn(k, w, r).Err?)
  }

  /** When the reply to a request is recorded. */
  function RepliesAt(w: World, r: LoginRequest): nat
  {
    if r.recovery.Some? then r.t.first else RecordsAt(Found(w, r.resolved), r.t)
  }

  /** What a password request leaves counted for a subject, by its reply: nothing changes when it was turned
      away by the throttle or ended in an error, a refused one counts as a failure, and any other reply ends
      what was counted. */
  ghost predicate CountedBy(k: Rules, w: World, r: LoginRequest, reply: Reply, w': World, s: Subject)
  {
    var window := k.policy.window;
    if !Names(r.ip, AccountIn(w, r), s) || reply == TooMany || (reply == Unauthorized && Broken(k, w, r)) then
      Kept(w.history, w'.history, s, window)
    else if reply == Unauthorized then Grew(w.history, w'.history, s, RepliesAt(w, r), window)
    else Ended(w'.history, s, window)
  }

  lemma AttemptKept(k: Rules, w: World, r: LoginRequest, id: nat)
    requires id in w.accounts
    ensures Proceed(w, r, id).0.history == w.history && Proceed(w, r, id).1 != TooMany
    ensures Proceed(w, r, id).1 != Unauthorized
  {
  }

  lemma RecoveryCounts(k: Rules, w: World, r: LoginRequest, s: Subject)
    requires r.recovery.Some? && !LockedAt(w.history, r.ip, None, k.policy, r.start)
    ensures CountedBy(k, w, r, Recover(w, r, r.recovery.value).1, Recover(w, r, r.recovery.value).0, s)
  {
    NotedCounts(w.history, r.ip, None, Failed(r.t.first), s, k.policy.window);
    NotedCounts(w.history, r.ip, None, Cleared, s, k.policy.window);
  }

  lemma PasswordCounts(k: Rules, w: World, r: LoginRequest, s: Subject)
    ensures CountedBy(k, w, r, PasswordStep(k, w, r).1, PasswordStep(k, w, r).0, s)
  {
    var found, verdict := Found(w, r.resolved), VerdictOn(k, w, r);
    var (w', attempt) := AttemptIn(k, w, r);
    if LockedAt(w.history, r.ip, None, k.policy, r.start) {
    } else if r.recovery.Some? {
      RecoveryCounts(k, w, r, s);
    } else {
      AttemptCounts(w.history, r.ip, found, verdict, k.policy, r.t, s);
      AttemptErrs(w.history, r.ip, found, verdict, k.policy, r.t);
      if attempt.Ok? && attempt.value.Granted? { AttemptKept(k, w', r, attempt.value.account); }
    }
  }

  lemma AttemptErrs(history: History, ip: Option<string>, resolved: Result<Option<nat>>, verdict: Result<bool>,
                    policy: Policy, t: Moments)
    ensures var r := Answer(history, ip, resolved, verdict, policy, t);
            && (r.Err? ==> resolved.Err? || verdict.Err?)
            && (r == Ok(Attempt.Denied) && resolved.Ok? && resolved.value.Some? ==> verdict.Ok?)
            && (r == Ok(Attempt.Denied) ==> resolved.Ok?)
  {
  }

  /** A request is turned away by the throttle exactly when, at one of its looks, a subject it names has failed
      as often as the limit. */
  lemma TooManyIff(k: Rules, w: World, r: LoginRequest)
    ensures PasswordStep(k, w, r).1 == TooMany <==>
            || Barred(w.history, r.ip, None, k.policy, r.start)
            || (&& r.recovery.None?
                && (|| Barred(w.history, r.ip, None, k.policy, r.t.first)
                    || (AccountIn(w, r).Some? && Barred(w.history, r.ip, AccountIn(w, r), k.policy, r.t.second))))
  {
    BarredIff(w.history, r.ip, None, k.policy, r.start);
    AnswerExact(w.history, r.ip, Found(w, r.resolved), VerdictOn(k, w, r), k.policy, r.t);
    var (w', attempt) := AttemptIn(k, w, r);
    if attempt.Ok? && attempt.value.Granted? { AttemptKept(k, w', r, attempt.value.account); }
  }

  /** A name that leads to an account no longer there is an error: refused, and nothing is counted. */
  lemma DanglingErrs(k: Rules, w: World, r: LoginRequest, id: nat)
    requires r.recovery.None? && r.resolved == Ok(Some(id)) && id !in w.accounts
    ensures PasswordStep(k, w, r).0 == w && PasswordStep(k, w, r).1 in {TooMany, Unauthorized}
  {
  }

  // ----- What a step leaves alone -----

  function PendingAt(w: World, key: string): Option<Challenge>
  {
    if key in w.pending then Some(w.pending[key]) else None
  }

  /** A password request touches neither accounts nor lists, and of the challenges only the one under its key,
      which it opens. */
  lemma PasswordFrame(k: Rules, w: World, r: LoginRequest)
    ensures var (w', reply) := PasswordStep(k, w, r);
            && w'.accounts == w.accounts && w'.lists == w.lists
            && (forall key | key != r.key :: PendingAt(w', key) == PendingAt(w, key))
            && (reply != SecondFactorRequired ==> w'.pending == w.pending)
  {
    var (w', attempt) := AttemptIn(k, w, r);
    if r.recovery.Some? {
      RecoverFrame(w, r, r.recovery.value);
    } else if attempt.Ok? && attempt.value.Granted? {
      ProceedFrame(w', r, attempt.value.account);
    }
  }

  lemma RecoverFrame(w: World, r: LoginRequest, verified: Result<bool>)
    ensures var (w', reply) := Recover(w, r, verified);
            && w'.accounts == w.accounts && w'.lists == w.lists && w'.pending == w.pending
            && reply != SecondFactorRequired
  {
  }

  lemma ProceedFrame(w: World, r: LoginRequest, id: nat)
    requires id in w.accounts
    ensures var (w', reply) := Proceed(w, r, id);
            && w'.accounts == w.accounts && w'.lists == w.lists
            && (forall key | key != r.key :: PendingAt(w', key) == PendingAt(w, key))
            && (reply != SecondFactorRequired ==> w'.pending == w.pending)
  {
  }

  /** A code touches neither accounts nor what the throttle recorded, of the challenges only the one under its
      key, and a refused one no list. */
  lemma CodeFrame(k: Rules, w: World, c: CodeRequest)
    ensures var (w', reply) := CodeStep(k, w, c);
            && w'.accounts == w.accounts && w'.history == w.history
            && (forall key | key != c.key :: PendingAt(w', key) == PendingAt(w, key))
            && (reply == Unauthorized ==> w'.lists == w.lists)
            && (forall a | Granting(w, c) ==> a != w.pending[c.key].account ::
                  ListIn(w'.lists, a) == ListIn(w.lists, a))
  {
  }

  /** What a code leaves of the challenge it answers: nothing when it was out of time or attempts or has let
      somebody in, and else that challenge or nothing, the former with an attempt less. */
  lemma CodeUsesUp(k: Rules, w: World, c: CodeRequest)
    ensures var (w', reply) := CodeStep(k, w, c);
            && (PendingAt(w', c.key).Some? ==>
                  && PendingAt(w, c.key).Some? && !reply.Opened?
                  && var before, left := w.pending[c.key], w'.pending[c.key];
                     && c.now < before.expiresAt && left.attemptsLeft + 1 == before.attemptsLeft
                     && left.account == before.account && left.kind == before.kind
                     && left.expiresAt == before.expiresAt)
            && (reply == Unauthorized && PendingAt(w, c.key).Some? && Open(w.pending[c.key], c.now) ==>
                  PendingAt(w', c.key).Some?)
  {
  }

  lemma EditFrame(k: Rules, w: World, command: Command)
    requires !command.Password? && !command.Code?
    ensures var w' := Step(k, w, command).0;
            match command
            case EditList(a, _) =>
              w'.(lists := w.lists) == w && forall x | x != a :: ListIn(w'.lists, x) == ListIn(w.lists, x)
            case PutAccount(id, record) =>
              w'.(accounts := w.accounts) == w && w'.accounts == w.accounts[id := record]
            case DropAccount(id) => w'.(accounts := w.accounts) == w && w'.accounts == w.accounts - {id}
            case _ => true
  {
  }
}
