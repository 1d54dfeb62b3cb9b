/** The sign-in handlers as objects: the pending challenges, and a server over them, the throttle and the
    credential registry. Each handler is proved to take exactly the step SignIn gives, so a run of the server
    is a run of SignInRuns. */
module Login {
  import opened Common
  import opened Text
  import opened Utf8
  import opened Throttle
  import opened Credentials
  import opened SignIn
  import opened SignInRuns

  const MAX_CODE_BYTES: nat := 64

  class PendingChallenges {
    var inner: map<string, Challenge>

    constructor ()
      ensures inner == map[]
    {
      inner := map[];
    }

    method Begin(key: string, account: nat, kind: Kind, now: nat)
      modifies this
      ensures inner == old(inner)[key := Challenge(account, kind, now + PENDING_TTL, PENDING_ATTEMPTS)]
    {
      inner := inner[key := Challenge(account, kind, now + PENDING_TTL, PENDING_ATTEMPTS)];
    }

    /** An open challenge yields its account and kind at the price of one attempt; a spent one is dropped. */
    method TakeAttempt(key: string, now: nat) returns (r: Option<(nat, Kind)>)
      modifies this
      ensures r.Some? <==> key in old(inner) && Open(old(inner)[key], now)
      ensures r.Some? ==>
                var c := old(inner)[key];
                && r.value == (c.account, c.kind)
                && inner == old(inner)[key := c.(attemptsLeft := c.attemptsLeft - 1)]
      ensures r.None? ==> inner == old(inner) - {key}
    {
      if key !in inner { return None; }
      var entry := inner[key];
      if now >= entry.expiresAt || entry.attemptsLeft == 0 {
        inner := inner - {key};
        return None;
      }
      inner := inner[key := entry.(attemptsLeft := entry.attemptsLeft - 1)];
      r := Some((entry.account, entry.kind));
    }

    method Complete(key: string)
      modifies this
      ensures inner == old(inner) - {key}
    {
      inner := inner - {key};
    }
  }

  class Server {
    const registry: CredentialRegistry
    const pending: PendingChallenges
    const throttle: Throttle
    const checks: Checks
    var accounts: map<nat, Account>
    var sessions: seq<Session>

    ghost function Value(): World
      reads this, registry, pending, throttle
    {
      World(accounts, registry.lists, pending.inner, throttle.history, sessions)
    }

    ghost function TheRules(): Rules
    {
      Rules(checks, throttle.policy)
    }

    ghost predicate Valid()
      reads this, registry, throttle, throttle.store
    {
      registry.Valid() && throttle.Valid()
    }

    constructor (maxFailures: nat, window: nat, checks: Checks)
      requires maxFailures < Bytes.TWO_32
      ensures Valid() && Value() == World(map[], map[], map[], map[], [])
      ensures TheRules() == Rules(checks, Policy(if maxFailures == 0 then 1 else maxFailures, window))
      ensures fresh(registry) && fresh(pending) && fresh(throttle) && fresh(throttle.store) && throttle.clock == 0
    {
      registry := new CredentialRegistry();
      pending := new PendingChallenges();
      throttle := new Throttle(maxFailures, window);
      this.checks := checks;
      accounts, sessions := map[], [];
    }

    /** Stores a session, or fails to. */
    method StoreSession(session: Session, canStore: bool) returns (reply: Reply)
      modifies `sessions
      ensures (Value(), reply) == Issue(old(Value()), session, canStore)
    {
      if !canStore { return ServerError; }
      sessions := sessions + [session];
      reply := Opened(session);
    }

    method RecoveryLogin(r: LoginRequest, verified: Result<bool>) returns (reply: Reply)
      requires Valid() && throttle.clock <= r.t.first
      modifies `sessions, throttle, throttle.store
      ensures Valid() && throttle.clock <= r.t.first && (Value(), reply) == Recover(old(Value()), r, verified)
    {
      if verified == Ok(true) {
        throttle.RecordSuccess(r.ip, None, r.t.first);
        if r.kind != Admin { return AdminRequired; }
        reply := StoreSession(Session(0, r.username, true, Admin), r.canStore);
      } else {
        throttle.RecordFailure(r.ip, None, r.t.first);
        reply := Unauthorized;
      }
    }

    /** After a correct password. */
    method ProceedWith(r: LoginRequest, id: nat, means: By) returns (reply: Reply)
      requires id in accounts && means == ByPrimary(HasEnabledFactor(registry.ListOf(id)))
      modifies `sessions, pending
      ensures (Value(), reply) == Proceed(old(Value()), r, id)
    {
      if r.kind == Admin && !accounts[id].isAdmin { return AdminRequired; }
      if means.mfaRequired {
        pending.Begin(r.key, id, r.kind, r.t.third);
        return SecondFactorRequired;
      }
      reply := StoreSession(Session(id, r.username, accounts[id].isAdmin, r.kind), r.canStore);
    }

    /** The account's credentials are read and checked; checking has no effect of its own. */
    method CheckPassword(r: LoginRequest) returns (found: Result<Option<nat>>, verdict: Result<bool>, means: By)
      ensures found == Found(Value(), r.resolved) && verdict == VerdictOn(TheRules(), Value(), r)
      ensures verdict == Ok(true) ==>
                && found.Ok? && found.value.Some?
                && means == ByPrimary(HasEnabledFactor(registry.ListOf(found.value.value)))
    {
      found, verdict, means := r.resolved, Ok(false), ByPrimary(false);
      if found.Ok? && found.value.Some? {
        var id := found.value.value;
        if id !in accounts { return Err(NotFound), Ok(false), means; }
        var stored := registry.List(id);
        var auth := Authenticate(accounts[id].active, stored, Interactive, r.password, checks);
        InteractiveExact(accounts[id].active, stored, r.password, checks, auth);
        if auth.Err? {
          verdict := Err(Internal);
        } else if auth.value.Granted? {
          verdict, means := Ok(true), auth.value.means;
        }
      }
    }

    method TakePassword(r: LoginRequest) returns (reply: Reply)
      requires Valid() && throttle.clock <= r.start <= r.t.first && InOrder(throttle.clock, r.t)
      modifies `sessions, pending, throttle, throttle.store
      ensures Valid() && throttle.clock <= r.t.third
      ensures (Value(), reply) == Step(TheRules(), old(Value()), Password(r))
    {
      var locked := throttle.IsLocked(r.ip, None, r.start);
      if locked { return TooMany; }
      if r.recovery.Some? {
        reply := RecoveryLogin(r, r.recovery.value);
        return;
      }
      var found, verdict, means := CheckPassword(r);
      var attempt, _ := AttemptLogin(throttle, r.ip, found, verdict, r.t);
      if attempt == Ok(Throttled) { return TooMany; }
      if attempt.Err? || attempt.value == Attempt.Denied { return Unauthorized; }
      reply := ProceedWith(r, attempt.value.account, means);
    }

    /** POST login: challenges go by the user name trimmed and lower-cased. */
    method LogIn(kind: Kind, username: string, password: string, ip: Option<string>, recovery: Option<Result<bool>>,
                 resolved: Result<Option<nat>>, start: nat, t: Moments, canStore: bool) returns (reply: Reply)
      requires Valid() && throttle.clock <= start <= t.first && InOrder(throttle.clock, t)
      modifies `sessions, pending, throttle, throttle.store
      ensures Valid() && throttle.clock <= t.third
      ensures forall key | KeyFor(username, key) ::
                var r := LoginRequest(kind, key, username, password, ip, recovery, resolved, start, t, canStore);
                (Value(), reply) == Step(TheRules(), old(Value()), Password(r))
      ensures exists key :: KeyFor(username, key)
    {
      forall key ensures Normalize(username) == key <==> KeyFor(username, key) {
        NormalizeExact(username, key);
      }
      assert KeyFor(username, Normalize(username));
      reply := TakePassword(
        LoginRequest(kind, Normalize(username), username, password, ip, recovery, resolved, start, t, canStore));
    }

    /** Checks a code against the account's list and writes the factor back. */
    method Prove(id: nat, code: string, unixNow: nat, canWrite: bool) returns (r: Result<bool>)
      requires registry.Valid()
      modifies registry
      ensures registry.Valid()
      ensures var stored := old(registry.ListOf(id));
              && (r == Ok(true) <==> canWrite && Acceptable(stored, code, unixNow, checks))
              && (r == Ok(false) <==>
                    !Fails(stored, code, unixNow, checks) && !Acceptable(stored, code, unixNow, checks))
              && registry.lists ==
                 if r == Ok(true) then
                   WithList(old(registry.lists), id, After(stored, Accepted(ProofOf(stored, code, unixNow, checks))))
                 else old(registry.lists)
    {
      var stored := registry.List(id);
      var after;
      ghost var proof;
      r, after, proof := Complete(stored, code, unixNow, checks);
      YesOrNo(r);
      if r != Ok(true) { return; }
      ghost var totp := stored[FirstEnabled(stored)].totp;
      ProofUnique(totp, code, unixNow, checks, proof, ProofOf(stored, code, unixNow, checks));
      WrittenIsConsumed(stored, Spent(totp, proof));
      WrittenBackIs(stored, Spent(totp, proof));
      AcceptedDoesNotFail(stored, code, unixNow, checks);
      var at := FirstFactor(after);
      if at < |after| {
        if !canWrite { return Err(Internal); }
        registry.SetTotp(id, after[at].totp);
      }
    }

    /** From an attempt granted to a session. */
    method RedeemCode(c: CodeRequest, id: nat, kind: Kind) returns (reply: Reply)
      requires registry.Valid()
      modifies `sessions, pending, registry
      ensures registry.Valid() && (Value(), reply) == Redeem(TheRules(), old(Value()), c, id, kind)
    {
      if id !in accounts { return Unauthorized; }
      var r := Prove(id, c.code, c.unixNow, c.canWrite);
      if r.Err? { return ServerError; }
      if !r.value { return Unauthorized; }
      pending.Complete(c.key);
      reply := StoreSession(Session(id, c.username, accounts[id].isAdmin, kind), c.canStore);
    }

    method AnswerChallenge(c: CodeRequest) returns (reply: Reply)
      requires registry.Valid()
      modifies `sessions, pending, registry
      ensures registry.Valid() && (Value(), reply) == Step(TheRules(), old(Value()), Code(c))
    {
      var taken := pending.TakeAttempt(c.key, c.now);
      if taken.None? { return Unauthorized; }
      reply := RedeemCode(c, taken.value.0, taken.value.1);
    }

    /** POST totp: the code is trimmed, and refused when blank or too long; None stands for that refusal. */
    method SecondStep(username: string, body: string, now: nat, unixNow: nat, canWrite: bool, canStore: bool)
      returns (reply: Option<Reply>)
      requires registry.Valid()
      modifies `sessions, pending, registry
      ensures registry.Valid()
      ensures reply.None? <==> Trim(body) == "" || |Encode(Trim(body))| > 64
      ensures reply.None? ==> Value() == old(Value())
      ensures reply.Some? ==> forall key | KeyFor(username, key) ::
                var c := CodeRequest(key, username, Trim(body), now, unixNow, canWrite, canStore);
                (Value(), reply.value) == Step(TheRules(), old(Value()), Code(c))
    {
      forall key ensures Normalize(username) == key <==> KeyFor(username, key) {
        NormalizeExact(username, key);
      }
      var code := Trim(body);
      if code == "" || |Encode(code)| > MAX_CODE_BYTES { return None; }
      var r := AnswerChallenge(CodeRequest(Normalize(username), username, code, now, unixNow, canWrite, canStore));
      reply := Some(r);
    }

    /** The registry's edits. */
    method Edit(account: nat, edit: ListEdit)
      requires registry.Valid()
      modifies registry
      ensures registry.Valid() && Value() == Step(TheRules(), old(Value()), EditList(account, edit)).0
    {
      match edit {
        case SetPrimary(hash, now) => registry.SetPrimaryPassword(account, hash, now);
        case AddApp(id, hash) => registry.AddAppPassword(account, id, hash);
        case RevokeApp(id) => var _ := registry.RevokeAppPassword(account, id);
        case SetFactor(totp) => registry.SetTotp(account, totp);
        case ClearFactor => registry.ClearTotp(account);
        case Remove => registry.RemoveAll(account);
      }
    }

    method Perform(command: Command) returns (reply: Reply)
      requires Valid() && Due(throttle.clock, command)
      modifies this, registry, pending, throttle, throttle.store
      ensures Valid() && throttle.clock <= Until(old(throttle.clock), command)
      ensures (Value(), reply) == Step(TheRules(), old(Value()), command)
    {
      reply := Done;
      match command {
        case Password(r) => reply := TakePassword(r);
        case Code(c) => reply := AnswerChallenge(c);
        case EditList(account, edit) => Edit(account, edit);
        case PutAccount(id, record) => accounts := accounts[id := record];
        case DropAccount(id) => accounts := accounts - {id};
      }
    }

    /** Whatever is asked of the server, in whatever order, its states and replies are a run. */
    method Serve(commands: seq<Command>) returns (replies: seq<Reply>, ghost run: Run)
      requires Valid() && AllDue(throttle.clock, commands)
      modifies this, registry, pending, throttle, throttle.store
      ensures Valid() && run.Valid() && run.rules == TheRules() && run.commands == commands && run.replies == replies
      ensures run.worlds[0] == old(Value()) && run.worlds[|commands|] == Value()
    {
      replies := [];
      run := Run(TheRules(), [], [Value()], []);
      for i := 0 to |commands|
        invariant Valid() && AllDue(throttle.clock, commands[i..])
        invariant run.Valid() && run.rules == TheRules() && run.commands == commands[..i] && run.replies == replies
        invariant run.worlds[0] == old(Value()) && run.worlds[i] == Value()
      {
        assert commands[i..][0] == commands[i] && commands[i..][1..] == commands[i + 1..];
        DueLater(throttle.clock, commands[i..]);
        ghost var clock := throttle.clock;
        var reply := Perform(commands[i]);
        replies := replies + [reply];
        ghost var longer := Run(TheRules(), commands[..i + 1], run.worlds + [Value()], replies);
        assert commands[..i + 1][..i] == commands[..i];
        RunExtends(run, longer, i);
        EarlierClock(Until(clock, commands[i]), throttle.clock, commands[i + 1..]);
        run := longer;
      }
      assert commands[..|commands|] == commands;
    }
  }

  /** From an empty server on, whatever it is asked: every session it opens is rightful, every session it holds
      was opened so, and no chain of failures passes the limit. */
  method ServeFromStart(maxFailures: nat, window: nat, checks: Checks, commands: seq<Command>)
    returns (server: Server, replies: seq<Reply>, ghost run: Run)
    requires maxFailures < Bytes.TWO_32 && AllDue(0, commands)
    ensures run.Valid() && run.commands == commands && run.replies == replies
    ensures run.worlds[0] == World(map[], map[], map[], map[], []) && run.worlds[|commands|] == server.Value()
    ensures forall n | 0 <= n < |commands| && replies[n].Opened? :: Rightful(run, n, replies[n].session)
    ensures forall j | 0 <= j < |server.sessions| :: Acquired(run, |commands|, server.sessions[j])
    ensures AllLimited(server.throttle.history, server.throttle.policy)
  {
    server := new Server(maxFailures, window, checks);
    replies, run := server.Serve(commands);
    forall n | 0 <= n < |commands| && replies[n].Opened? ensures Rightful(run, n, replies[n].session) {
      OpeningsAreRightful(run, n, replies[n].session);
    }
    forall j | 0 <= j < |server.sessions| ensures Acquired(run, |commands|, server.sessions[j]) {
      SessionsAreRightful(run, |commands|, j);
    }
    DueIsTimed(0, commands);
    LimitsHold(run, |commands|);
  }

  lemma {:induction false} DueIsTimed(clock: nat, commands: seq<Command>)
    requires AllDue(clock, commands)
    ensures Timed(commands)
    decreases |commands|
  {
    if commands != [] {
      DueIsTimed(Until(clock, commands[0]), commands[1..]);
      forall i | 0 < i < |commands| ensures commands[i] == commands[1..][i - 1] {}
    }
  }

  /** The clock does not run backwards: a request is not older than what the throttle has seen. */
  predicate Due(clock: nat, command: Command)
  {
    command.Password? ==>
      clock <= command.request.start <= command.request.t.first && InOrder(clock, command.request.t)
  }

  function Until(clock: nat, command: Command): nat
  {
    if command.Password? then command.request.t.third else clock
  }

  predicate AllDue(clock: nat, commands: seq<Command>)
    decreases |commands|
  {
    commands == [] || (Due(clock, commands[0]) && AllDue(Until(clock, commands[0]), commands[1..]))
  }

  lemma DueLater(clock: nat, commands: seq<Command>)
    requires AllDue(clock, commands) && commands != []
    ensures Due(clock, commands[0]) && AllDue(Until(clock, commands[0]), commands[1..])
  {
  }

  lemma {:induction false} EarlierClock(clock: nat, earlier: nat, commands: seq<Command>)
    requires AllDue(clock, commands) && earlier <= clock
    ensures AllDue(earlier, commands)
    decreases |commands|
  {
    if commands != [] { EarlierClock(Until(clock, commands[0]), Until(earlier, commands[0]), commands[1..]); }
  }
}
