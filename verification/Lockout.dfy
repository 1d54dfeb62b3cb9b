/** The lock that failures earn: after as many refused requests as the limit, each within the window of the one
    before and none let through in between, the next request that names the subject is turned away. */
module Lockout {
  import opened Common
  import opened Throttle
  import opened SignIn
  import opened SignInRuns

  /** Command i names the subject and is refused, for no error of the server's own. */
  predicate FailsFor(run: Run, i: nat, s: Subject)
    requires run.Shaped() && i < |run.commands|
  {
    && run.commands[i].Password? && run.replies[i] == Unauthorized
    && Names(run.commands[i].request.ip, AccountIn(run.worlds[i], run.commands[i].request), s)
    && !Broken(run.rules, run.worlds[i], run.commands[i].request)
  }

  /** Command i names the subject and its password was right. */
  predicate SucceedsFor(run: Run, i: nat, s: Subject)
    requires run.Shaped() && i < |run.commands|
  {
    && run.commands[i].Password? && run.replies[i] != Unauthorized && run.replies[i] != TooMany
    && Names(run.commands[i].request.ip, AccountIn(run.worlds[i], run.commands[i].request), s)
  }

  /** When the reply to command i is recorded. */
  function Instant(run: Run, i: nat): nat
    requires run.Shaped() && i < |run.commands|
  {
    if run.commands[i].Password? then RepliesAt(run.worlds[i], run.commands[i].request) else 0
  }

  /** Command j comes after command i, within the window. */
  predicate Close(run: Run, i: nat, j: nat)
    requires run.Shaped() && i < |run.commands| && j < |run.commands|
  {
    i < j && Instant(run, j) < Instant(run, i) + run.rules.policy.window
  }

  /** Requests are served one after the other by a clock that does not run backwards. */
  predicate Orderly(commands: seq<Command>)
  {
    && Timed(commands)
    && (forall i, j | 0 <= i < j < |commands| && commands[i].Password? && commands[j].Password? ::
          commands[i].request.t.third <= commands[j].request.start)
  }

  /** The instant comes after everything the first n requests did. */
  predicate After(commands: seq<Command>, n: nat, t: nat)
    requires n <= |commands|
  {
    forall i | 0 <= i < n && commands[i].Password? :: commands[i].request.t.third <= t
  }

  /** Failures of the subject, each within the window of the one before, and no success since the first. */
  predicate Streak(run: Run, at: seq<nat>, n: nat, s: Subject)
  {
    && run.Shaped() && n <= |run.commands|
    && (forall k | 0 <= k < |at| :: at[k] < n && FailsFor(run, at[k], s))
    && (forall i, j | 0 <= i && j == i + 1 < |at| :: Close(run, at[i], at[j]))
    && (forall i | 0 <= i < n && at != [] && at[0] < i :: !SucceedsFor(run, i, s))
  }

  lemma {:induction false} StreakRises(run: Run, at: seq<nat>, n: nat, s: Subject, i: nat, k: nat)
    requires Streak(run, at, n, s) && i <= k < |at|
    ensures at[i] <= at[k]
  {
    if i < k {
      StreakRises(run, at, n, s, i, k - 1);
      assert Close(run, at[k - 1], at[k]);
    }
  }

  lemma StreakPrefix(run: Run, at: seq<nat>, n: nat, s: Subject, k: nat, m: nat)
    requires Streak(run, at, n, s) && 0 < k <= |at| && at[k - 1] < m <= n
    ensures Streak(run, at[..k], m, s)
  {
    forall i | 0 <= i < k ensures at[i] < m { StreakRises(run, at, n, s, i, k - 1); }
  }

  lemma InstantIn(run: Run, i: nat)
    requires run.Shaped() && i < |run.commands| && run.commands[i].Password? && Timed(run.commands)
    ensures var r := run.commands[i].request; r.start <= Instant(run, i) <= r.t.third
  {
  }

  lemma LengthAfter(run: Run, m: nat, s: Subject)
    requires run.Valid() && m < |run.commands|
    ensures run.commands[m].Password? ==>
              CountedBy(run.rules, run.worlds[m], run.commands[m].request, run.replies[m], run.worlds[m + 1], s)
    ensures !run.commands[m].Password? ==> run.worlds[m + 1].history == run.worlds[m].history
  {
    assert run.Follows(m);
    match run.commands[m]
    case Password(r) => PasswordCounts(run.rules, run.worlds[m], r, s);
    case Code(c) => CodeFrame(run.rules, run.worlds[m], c);
    case _ => EditFrame(run.rules, run.worlds[m], run.commands[m]);
  }

  function LengthAt(run: Run, n: nat, s: Subject, t: nat): nat
    requires n < |run.worlds|
  {
    ChainLength(MarksOf(run.worlds[n].history, s), t, run.rules.policy.window)
  }

  /** The failure at m is one more than what was counted before it. */
  lemma FailureCounts(run: Run, m: nat, s: Subject, t: nat)
    requires run.Valid() && m < |run.commands| && FailsFor(run, m, s)
    requires Instant(run, m) <= t < Instant(run, m) + run.rules.policy.window
    ensures LengthAt(run, m + 1, s, t) == 1 + LengthAt(run, m, s, Instant(run, m))
  {
    LengthAfter(run, m, s);
  }

  /** A command that is neither a failure nor a success of the subject changes nothing for it. */
  lemma OthersKeep(run: Run, m: nat, s: Subject, t: nat)
    requires run.Valid() && m < |run.commands| && !FailsFor(run, m, s) && !SucceedsFor(run, m, s)
    ensures LengthAt(run, m + 1, s, t) == LengthAt(run, m, s, t)
  {
    LengthAfter(run, m, s);
  }

  lemma EarlierInstant(run: Run, i: nat, m: nat)
    requires run.Shaped() && Orderly(run.commands) && i < m < |run.commands|
    requires run.commands[i].Password? && run.commands[m].Password?
    ensures Instant(run, i) <= Instant(run, m) && After(run.commands, m, Instant(run, m))
  {
    InstantIn(run, i);
    InstantIn(run, m);
  }

  /** While the last of k failures is within the window, at least k are counted. */
  lemma {:induction false} StreakCounts(run: Run, at: seq<nat>, s: Subject, k: nat, n: nat, t: nat)
    requires run.Valid() && Orderly(run.commands) && Streak(run, at, n, s) && 0 < k <= |at| && at[k - 1] < n
    requires After(run.commands, n, t) && t < Instant(run, at[k - 1]) + run.rules.policy.window
    ensures LengthAt(run, n, s, t) >= k
    decreases n
  {
    var m, last := n - 1, at[k - 1];
    StreakRises(run, at, n, s, 0, k - 1);
    if m == last {
      InstantIn(run, m);
      FailureCounts(run, m, s, t);
      if k > 1 {
        assert Close(run, at[k - 2], at[k - 1]);
        EarlierInstant(run, at[k - 2], m);
        StreakPrefix(run, at, n, s, k - 1, m);
        StreakCounts(run, at[..k - 1], s, k - 1, m, Instant(run, m));
      }
    } else if FailsFor(run, m, s) {
      InstantIn(run, m);
      EarlierInstant(run, last, m);
      FailureCounts(run, m, s, t);
      StreakPrefix(run, at, n, s, k, m);
      StreakCounts(run, at[..k], s, k, m, Instant(run, m));
    } else {
      OthersKeep(run, m, s, t);
      StreakPrefix(run, at, n, s, k, m);
      StreakCounts(run, at[..k], s, k, m, t);
    }
  }

  /** The instant at which a request first looks whether this subject is locked. */
  function Looks(r: LoginRequest, s: Subject): nat
  {
    if s.ByIp? then r.start else r.t.second
  }

  /** In every run: as many failures of an address or an account as the limit lock it for the window. */
  lemma LocksOut(run: Run, at: seq<nat>, n: nat, s: Subject)
    requires run.Valid() && Orderly(run.commands) && n < |run.commands| && Streak(run, at, n, s)
    requires |at| == run.rules.policy.maxFailures >= 1
    requires run.commands[n].Password?
    requires Names(run.commands[n].request.ip, AccountIn(run.worlds[n], run.commands[n].request), s)
    requires Looks(run.commands[n].request, s) < Instant(run, at[|at| - 1]) + run.rules.policy.window
    ensures run.replies[n] == TooMany
  {
    var r, w := run.commands[n].request, run.worlds[n];
    InstantIn(run, n);
    assert After(run.commands, n, Looks(r, s));
    StreakCounts(run, at, s, |at|, n, Looks(r, s));
    assert run.Follows(n);
    TooManyIff(run.rules, w, r);
    if s.ByIp? {
      assert Barred(w.history, r.ip, None, run.rules.policy, r.start) by { assert Names(r.ip, None, s); }
    } else {
      assert Barred(w.history, r.ip, AccountIn(w, r), run.rules.policy, r.t.second);
    }
  }

  // ----- And nothing else locks -----

  lemma StreakGrows(run: Run, at: seq<nat>, m: nat, s: Subject)
    requires run.Shaped() && m < |run.commands| && Streak(run, at, m, s) && FailsFor(run, m, s)
    requires at != [] ==> Instant(run, m) < Instant(run, at[|at| - 1]) + run.rules.policy.window
    ensures Streak(run, at + [m], m + 1, s)
  {
    var longer := at + [m];
    forall i, j | 0 <= i && j == i + 1 < |longer| ensures Close(run, longer[i], longer[j]) {
      if j < |at| { assert Close(run, at[i], at[j]); }
    }
  }

  lemma StreakStays(run: Run, at: seq<nat>, m: nat, s: Subject)
    requires run.Shaped() && m < |run.commands| && Streak(run, at, m, s) && !SucceedsFor(run, m, s)
    ensures Streak(run, at, m + 1, s)
  {
  }

  /** Everything counted for a subject is a streak of its failures that is still within the window. */
  lemma {:induction false} CountedIsStreak(run: Run, n: nat, s: Subject, t: nat) returns (at: seq<nat>)
    requires run.Valid() && Orderly(run.commands) && run.worlds[0].history == map[]
    requires n <= |run.commands| && After(run.commands, n, t)
    ensures Streak(run, at, n, s) && |at| == LengthAt(run, n, s, t)
    ensures at != [] ==> t < Instant(run, at[|at| - 1]) + run.rules.policy.window
    decreases n
  {
    at := [];
    if n > 0 {
      var m := n - 1;
      if FailsFor(run, m, s) {
        InstantIn(run, m);
        LengthAfter(run, m, s);
        if t < Instant(run, m) + run.rules.policy.window {
          assert After(run.commands, m, Instant(run, m));
          var before := CountedIsStreak(run, m, s, Instant(run, m));
          StreakGrows(run, before, m, s);
          FailureCounts(run, m, s, t);
          at := before + [m];
        }
      } else if SucceedsFor(run, m, s) {
        LengthAfter(run, m, s);
      } else {
        at := CountedIsStreak(run, m, s, t);
        StreakStays(run, at, m, s);
        OthersKeep(run, m, s, t);
      }
    }
  }

  lemma BarredByStreak(run: Run, n: nat, ip: Option<string>, account: Option<nat>, t: nat)
    returns (s: Subject, at: seq<nat>)
    requires run.Valid() && Orderly(run.commands) && run.worlds[0].history == map[]
    requires n <= |run.commands| && After(run.commands, n, t)
    requires Barred(run.worlds[n].history, ip, account, run.rules.policy, t)
    ensures Names(ip, account, s) && Streak(run, at, n, s) && |at| >= run.rules.policy.maxFailures
  {
    s :| Names(ip, account, s)
         && ChainLength(MarksOf(run.worlds[n].history, s), t, run.rules.policy.window) >= run.rules.policy.maxFailures;
    at := CountedIsStreak(run, n, s, t);
  }

  /** In every run from the start: a request is turned away by the throttle only if a subject it names has been
      refused as often as the limit, each time within the window of the one before and with no success since. */
  lemma OnlyStreaksLock(run: Run, n: nat) returns (s: Subject, at: seq<nat>)
    requires run.Valid() && Orderly(run.commands) && run.worlds[0].history == map[]
    requires n < |run.commands| && run.commands[n].Password? && run.replies[n] == TooMany
    ensures Names(run.commands[n].request.ip, AccountIn(run.worlds[n], run.commands[n].request), s)
    ensures Streak(run, at, n, s) && |at| >= run.rules.policy.maxFailures
  {
    var r, w, p := run.commands[n].request, run.worlds[n], run.rules.policy;
    assert run.Follows(n);
    TooManyIff(run.rules, w, r);
    InstantIn(run, n);
    if Barred(w.history, r.ip, None, p, r.start) {
      s, at := BarredByStreak(run, n, r.ip, None, r.start);
    } else if Barred(w.history, r.ip, None, p, r.t.first) {
      s, at := BarredByStreak(run, n, r.ip, None, r.t.first);
    } else {
      s, at := BarredByStreak(run, n, r.ip, AccountIn(w, r), r.t.second);
    }
  }
}
