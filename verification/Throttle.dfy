/** The failure throttle: counters in an expiring store, what they count, and the login path that
    consults them. Each call happens at one instant of a clock that does not run backwards. */
module Throttle {
  import opened Common
  import opened Bytes

  // ----- The expiring store -----

  datatype Entry<V> = Entry(value: V, expiresAt: nat)

  /** What a key reads as at an instant. */
  function Live<K, V>(entries: map<K, Entry<V>>, key: K, now: nat): Option<V>
  {
    if key in entries && now < entries[key].expiresAt then Some(entries[key].value) else None
  }

  /** From this instant on, two stores read the same but for one key. */
  ghost predicate SameElsewhere<K(!new), V>(before: map<K, Entry<V>>, after: map<K, Entry<V>>, key: K, now: nat)
  {
    forall k, t | k != key && t >= now :: Live(after, k, t) == Live(before, k, t)
  }

  class TtlStore<K(==, !new), V> {
    var entries: map<K, Entry<V>>

    constructor ()
      ensures entries == map[]
    {
      entries := map[];
    }

    method Put(key: K, value: V, ttl: nat, now: nat)
      modifies this
      ensures SameElsewhere(old(entries), entries, key, now)
      ensures forall t: nat :: Live(entries, key, t) == if t < now + ttl then Some(value) else None
    {
      entries := entries[key := Entry(value, now + ttl)];
    }

    /** Reading an expired entry also removes it. */
    method Get(key: K, now: nat) returns (r: Option<V>)
      modifies this
      ensures r == Live(old(entries), key, now)
      ensures forall k, t | t >= now :: Live(entries, k, t) == Live(old(entries), k, t)
    {
      if key in entries && now >= entries[key].expiresAt {
        entries := entries - {key};
        r := None;
      } else if key in entries {
        r := Some(entries[key].value);
      } else {
        r := None;
      }
    }

    method Remove(key: K, now: nat)
      modifies this
      ensures SameElsewhere(old(entries), entries, key, now)
      ensures forall t: nat :: Live(entries, key, t) == None
    {
      entries := entries - {key};
    }

    method Sweep(now: nat)
      modifies this
      ensures forall k, t | t >= now :: Live(entries, k, t) == Live(old(entries), k, t)
      ensures forall k | k in entries :: now < entries[k].expiresAt
    {
      entries := map k | k in entries && now < entries[k].expiresAt :: entries[k];
    }
  }

  // ----- Chains of failures -----

  datatype Mark = Failed(at: nat) | Cleared

  /** The chain of failures alive at an instant: the last one within the window, and each within the
      window of the one after it, back to the last success. */
  function ChainLength(h: seq<Mark>, now: nat, window: nat): nat
  {
    if h == [] || h[|h| - 1].Cleared? || now >= h[|h| - 1].at + window then 0
    else 1 + ChainLength(h[..|h| - 1], h[|h| - 1].at, window)
  }

  /** Failure k was followed, within the window, by failure k + 1. */
  predicate Linked(h: seq<Mark>, k: nat, window: nat)
  {
    k + 1 < |h| && h[k].Failed? && h[k + 1].Failed? && h[k + 1].at < h[k].at + window
  }

  /** The last n marks are a chain alive now, and no longer run of marks is one. */
  predicate IsChain(h: seq<Mark>, now: nat, window: nat, n: nat)
  {
    && n <= |h|
    && (n > 0 ==> h[|h| - 1].Failed? && now < h[|h| - 1].at + window)
    && (forall k | |h| - n <= k < |h| - 1 :: Linked(h, k, window))
    && (n < |h| ==>
          if n == 0 then h[|h| - 1].Cleared? || now >= h[|h| - 1].at + window
          else !Linked(h, |h| - n - 1, window))
  }

  lemma {:induction false} ChainLengthIsChain(h: seq<Mark>, now: nat, window: nat)
    ensures IsChain(h, now, window, ChainLength(h, now, window))
  {
    if h != [] && h[|h| - 1].Failed? && now < h[|h| - 1].at + window {
      var head := h[..|h| - 1];
      var n := ChainLength(head, h[|h| - 1].at, window);
      ChainLengthIsChain(head, h[|h| - 1].at, window);
      forall k | |h| - 1 - n <= k < |h| - 1 ensures Linked(h, k, window) {
        assert k < |h| - 2 ==> Linked(head, k, window);
      }
      assert 0 < n < |head| ==> !Linked(head, |head| - n - 1, window);
    }
  }

  /** There is only one such chain. */
  lemma ChainUnique(h: seq<Mark>, now: nat, window: nat, m: nat, n: nat)
    requires IsChain(h, now, window, m) && IsChain(h, now, window, n)
    ensures m == n
  {
    if m < n {
      ChainMaximal(h, now, window, m, n);
    } else if n < m {
      ChainMaximal(h, now, window, n, m);
    }
  }

  lemma ChainMaximal(h: seq<Mark>, now: nat, window: nat, m: nat, n: nat)
    requires IsChain(h, now, window, m) && IsChain(h, now, window, n)
    ensures m >= n
  {
    assert forall k | |h| - n <= k < |h| - 1 :: Linked(h, k, window);
    assert 0 < m < |h| ==> !Linked(h, |h| - m - 1, window);
  }

  /** Failures were recorded in the order of the clock. */
  predicate Timely(h: seq<Mark>, clock: nat)
  {
    && (forall i | 0 <= i < |h| && h[i].Failed? :: h[i].at <= clock)
    && (forall i, j | 0 <= i < j < |h| && h[i].Failed? && h[j].Failed? :: h[i].at <= h[j].at)
  }

  lemma TimelySnoc(h: seq<Mark>, mark: Mark, clock: nat, now: nat)
    requires Timely(h, clock) && clock <= now && (mark.Failed? ==> mark.at == now)
    ensures Timely(h + [mark], now)
  {
  }

  lemma {:induction false} ChainShrinks(h: seq<Mark>, now: nat, later: nat, window: nat)
    requires now <= later
    ensures ChainLength(h, later, window) <= ChainLength(h, now, window)
  {
  }

  lemma ChainSnoc(h: seq<Mark>, mark: Mark, now: nat, window: nat)
    ensures ChainLength(h + [mark], now, window) ==
            if mark.Cleared? || now >= mark.at + window then 0 else 1 + ChainLength(h, mark.at, window)
  {
    assert (h + [mark])[..|h|] == h;
  }

  // ----- The throttle -----

  /** Counted by source address and by account. */
  datatype Subject = ByIp(ip: string) | ByAccount(account: nat)

  datatype Policy = Policy(maxFailures: nat, window: nat)

  const DEFAULT_POLICY := Policy(5, 15 * 60)

  /** Everything ever recorded, by subject. */
  type History = map<Subject, seq<Mark>>

  function Saturated(n: nat): nat
  {
    if n < TWO_32 then n else TWO_32 - 1
  }

  function Tally(count: Option<nat>): nat
  {
    if count.Some? then count.value else 0
  }

  function MarksOf(history: History, s: Subject): seq<Mark>
  {
    if s in history then history[s] else []
  }

  function Appended(history: History, s: Subject, mark: Mark): History
  {
    history[s := MarksOf(history, s) + [mark]]
  }

  function Noted(history: History, ip: Option<string>, account: Option<nat>, mark: Mark): History
  {
    var h := if ip.Some? then Appended(history, ByIp(ip.value), mark) else history;
    if account.Some? then Appended(h, ByAccount(account.value), mark) else h
  }

  predicate Full(history: History, s: Subject, policy: Policy, now: nat)
  {
    ChainLength(MarksOf(history, s), now, policy.window) >= policy.maxFailures
  }

  /** Either chain has reached the limit. */
  predicate LockedAt(history: History, ip: Option<string>, account: Option<nat>, policy: Policy, now: nat)
  {
    || (ip.Some? && Full(history, ByIp(ip.value), policy, now))
    || (account.Some? && Full(history, ByAccount(account.value), policy, now))
  }

  predicate AllTimely(history: History, clock: nat)
  {
    forall s | s in history :: Timely(history[s], clock)
  }

  lemma AllTimelyLater(history: History, clock: nat, now: nat)
    requires AllTimely(history, clock) && clock <= now
    ensures AllTimely(history, now)
  {
  }

  lemma AllTimelySnoc(history: History, s: Subject, mark: Mark, clock: nat, now: nat)
    requires AllTimely(history, clock) && clock <= now && (mark.Failed? ==> mark.at == now)
    ensures AllTimely(Appended(history, s, mark), now)
  {
    TimelySnoc(MarksOf(history, s), mark, clock, now);
  }

  /** At every instant from now on, each counter reads as the saturated length of its chain. */
  ghost predicate Reads(entries: map<Subject, Entry<nat>>, history: History, window: nat, now: nat)
  {
    forall s, t | t >= now :: Tally(Live(entries, s, t)) == Saturated(ChainLength(MarksOf(history, s), t, window))
  }

  lemma ReadsSnoc(entries: map<Subject, Entry<nat>>, entries': map<Subject, Entry<nat>>, history: History, s: Subject,
                  mark: Mark, window: nat, now: nat)
    requires Reads(entries, history, window, now) && SameElsewhere(entries, entries', s, now)
    requires forall t: nat | t >= now ::
               Tally(Live(entries', s, t)) == Saturated(ChainLength(MarksOf(history, s) + [mark], t, window))
    ensures Reads(entries', Appended(history, s, mark), window, now)
  {
  }

  class Throttle {
    const store: TtlStore<Subject, nat>
    const policy: Policy
    ghost var history: History
    ghost var clock: nat

    ghost predicate Valid()
      reads this, store
    {
      && policy.maxFailures < TWO_32
      && AllTimely(history, clock)
      && Reads(store.entries, history, policy.window, clock)
    }

    constructor (maxFailures: nat, window: nat)
      requires maxFailures < TWO_32
      ensures Valid() && fresh(store) && history == map[] && clock == 0
      ensures policy == Policy(if maxFailures == 0 then 1 else maxFailures, window)
    {
      store := new TtlStore<Subject, nat>();
      policy := Policy(if maxFailures == 0 then 1 else maxFailures, window);
      history, clock := map[], 0;
    }

    constructor Default()
      ensures Valid() && fresh(store) && history == map[] && clock == 0 && policy == Policy(5, 15 * 60)
    {
      store := new TtlStore<Subject, nat>();
      policy := DEFAULT_POLICY;
      history, clock := map[], 0;
    }

    method Count(s: Subject, now: nat) returns (n: nat)
      requires Valid() && clock <= now
      modifies store, `clock
      ensures Valid() && clock == now
      ensures n == Saturated(ChainLength(MarksOf(history, s), now, policy.window))
    {
      var r := store.Get(s, now);
      n := if r.Some? then r.value else 0;
      AllTimelyLater(history, clock, now);
      clock := now;
    }

    method Bump(s: Subject, now: nat)
      requires Valid() && clock <= now
      modifies this, store
      ensures Valid() && clock == now && history == Appended(old(history), s, Failed(now))
    {
      var n := Count(s, now);
      ghost var entries, marks := store.entries, MarksOf(history, s);
      store.Put(s, if n + 1 < TWO_32 then n + 1 else TWO_32 - 1, policy.window, now);
      forall t: nat | t >= now
        ensures Tally(Live(store.entries, s, t)) == Saturated(ChainLength(marks + [Failed(now)], t, policy.window))
      {
        ChainSnoc(marks, Failed(now), t, policy.window);
      }
      ReadsSnoc(entries, store.entries, history, s, Failed(now), policy.window, now);
      AllTimelySnoc(history, s, Failed(now), now, now);
      history := Appended(history, s, Failed(now));
    }

    method Clear(s: Subject, now: nat)
      requires Valid() && clock <= now
      modifies this, store
      ensures Valid() && clock == now && history == Appended(old(history), s, Cleared)
    {
      ghost var entries, marks := store.entries, MarksOf(history, s);
      store.Remove(s, now);
      forall t: nat ensures ChainLength(marks + [Cleared], t, policy.window) == 0 {
        ChainSnoc(marks, Cleared, t, policy.window);
      }
      ReadsSnoc(entries, store.entries, history, s, Cleared, policy.window, now);
      AllTimelySnoc(history, s, Cleared, clock, now);
      history := Appended(history, s, Cleared);
      clock := now;
    }

    method Sweep(now: nat)
      requires Valid() && clock <= now
      modifies store, `clock
      ensures Valid() && clock == now
    {
      store.Sweep(now);
      AllTimelyLater(history, clock, now);
      clock := now;
    }

    method RecordFailure(ip: Option<string>, account: Option<nat>, now: nat)
      requires Valid() && clock <= now
      modifies this, store
      ensures Valid() && clock == now && history == Noted(old(history), ip, account, Failed(now))
    {
      AllTimelyLater(history, clock, now);
      clock := now;
      if ip.Some? { Bump(ByIp(ip.value), now); }
      if account.Some? { Bump(ByAccount(account.value), now); }
    }

    method RecordSuccess(ip: Option<string>, account: Option<nat>, now: nat)
      requires Valid() && clock <= now
      modifies this, store
      ensures Valid() && clock == now && history == Noted(old(history), ip, account, Cleared)
    {
      AllTimelyLater(history, clock, now);
      clock := now;
      if ip.Some? { Clear(ByIp(ip.value), now); }
      if account.Some? { Clear(ByAccount(account.value), now); }
    }

    /** Locked when either chain has reached the limit. */
    method IsLocked(ip: Option<string>, account: Option<nat>, now: nat) returns (locked: bool)
      requires Valid() && clock <= now
      modifies store, `clock
      ensures Valid() && clock == now
      ensures locked <==> LockedAt(history, ip, account, policy, now)
    {
      AllTimelyLater(history, clock, now);
      clock := now;
      locked := false;
      if ip.Some? {
        var n := Count(ByIp(ip.value), now);
        locked := n >= policy.maxFailures;
      }
      if account.Some? {
        var n := Count(ByAccount(account.value), now);
        locked := locked || n >= policy.maxFailures;
      }
    }
  }

  // ----- attempt_login -----

  datatype Attempt = Granted(account: nat) | Denied | Throttled

  /** The clock as attempt_login reads it: at the first check, at the second, and when it records. */
  datatype Moments = Moments(first: nat, second: nat, third: nat)

  predicate InOrder(clock: nat, t: Moments)
  {
    clock <= t.first <= t.second <= t.third
  }

  /** The attempt gets as far as checking the secret. */
  predicate Reached(history: History, ip: Option<string>, resolved: Result<Option<nat>>, policy: Policy, t: Moments)
  {
    && !LockedAt(history, ip, None, policy, t.first)
    && resolved.Ok? && resolved.value.Some?
    && !LockedAt(history, ip, resolved.value, policy, t.second)
  }

  /** The answer to an attempt. resolved is what looking the user name up gives, verdict what checking the
      secret against that account's stored credentials gives; both may fail. */
  function Answer(history: History, ip: Option<string>, resolved: Result<Option<nat>>, verdict: Result<bool>,
                  policy: Policy, t: Moments): Result<Attempt>
  {
    if Reached(history, ip, resolved, policy, t) then
      if verdict.Err? then Err(verdict.error)
      else if verdict.value then Ok(Granted(resolved.value.value))
      else Ok(Denied)
    else if LockedAt(history, ip, None, policy, t.first) then Ok(Throttled)
    else if resolved.Err? then Err(resolved.error)
    else if resolved.value.None? then Ok(Denied)
    else Ok(Throttled)
  }

  /** What an attempt leaves recorded. */
  function Recorded(history: History, ip: Option<string>, resolved: Result<Option<nat>>, verdict: Result<bool>,
                    policy: Policy, t: Moments): History
  {
    if Reached(history, ip, resolved, policy, t) then
      if verdict.Err? then history
      else Noted(history, ip, resolved.value, if verdict.value then Cleared else Failed(t.third))
    else if !LockedAt(history, ip, None, policy, t.first) && resolved == Ok(None) then
      Noted(history, ip, None, Failed(t.second))
    else history
  }

  // What an attempt means for the chains of failures, by its reply.

  /** One failure more is counted for the subject from now on, for as long as the window. */
  ghost predicate Grew(before: History, after: History, s: Subject, now: nat, window: nat)
  {
    forall t: nat | t >= now ::
      ChainLength(MarksOf(after, s), t, window) ==
      if t < now + window then 1 + ChainLength(MarksOf(before, s), now, window) else 0
  }

  /** Nothing is counted for it any more. */
  ghost predicate Ended(after: History, s: Subject, window: nat)
  {
    forall t: nat :: ChainLength(MarksOf(after, s), t, window) == 0
  }

  /** What is counted for it is what was. */
  ghost predicate Kept(before: History, after: History, s: Subject, window: nat)
  {
    forall t: nat :: ChainLength(MarksOf(after, s), t, window) == ChainLength(MarksOf(before, s), t, window)
  }

  /** The subject is the request's address or the account it is for. */
  predicate Names(ip: Option<string>, account: Option<nat>, s: Subject)
  {
    match s
    case ByIp(x) => ip == Some(x)
    case ByAccount(a) => account == Some(a)
  }

  /** One of the request's subjects has failed as often as the limit. */
  ghost predicate Barred(history: History, ip: Option<string>, account: Option<nat>, policy: Policy, now: nat)
  {
    exists s :: Names(ip, account, s) && ChainLength(MarksOf(history, s), now, policy.window) >= policy.maxFailures
  }

  lemma BarredIff(history: History, ip: Option<string>, account: Option<nat>, policy: Policy, now: nat)
    ensures LockedAt(history, ip, account, policy, now) <==> Barred(history, ip, account, policy, now)
  {
    if ip.Some? && Full(history, ByIp(ip.value), policy, now) { assert Names(ip, account, ByIp(ip.value)); }
    if account.Some? && Full(history, ByAccount(account.value), policy, now) {
      assert Names(ip, account, ByAccount(account.value));
    }
  }

  lemma AppendedCounts(history: History, s: Subject, mark: Mark, x: Subject, window: nat)
    ensures x != s ==> Kept(history, Appended(history, s, mark), x, window)
    ensures mark.Failed? ==> Grew(history, Appended(history, s, mark), s, mark.at, window)
    ensures mark.Cleared? ==> Ended(Appended(history, s, mark), s, window)
  {
    forall t: nat { ChainSnoc(MarksOf(history, s), mark, t, window); }
    assert MarksOf(Appended(history, s, mark), s) == MarksOf(history, s) + [mark];
  }

  /** A mark noted for a request counts for its subjects and for no other. */
  lemma NotedCounts(history: History, ip: Option<string>, account: Option<nat>, mark: Mark, s: Subject, window: nat)
    ensures var after := Noted(history, ip, account, mark);
            if !Names(ip, account, s) then Kept(history, after, s, window)
            else if mark.Failed? then Grew(history, after, s, mark.at, window)
            else Ended(after, s, window)
  {
    var h := history;
    if ip.Some? {
      AppendedCounts(h, ByIp(ip.value), mark, s, window);
      h := Appended(h, ByIp(ip.value), mark);
    }
    if account.Some? { AppendedCounts(h, ByAccount(account.value), mark, s, window); }
  }

  /** What an attempt with this reply leaves counted: one failure more where it was denied, nothing where it
      was granted, and everything as it was where it was throttled or erred. */
  ghost predicate Counted(before: History, after: History, ip: Option<string>, account: Option<nat>,
                          r: Result<Attempt>, at: nat, s: Subject, window: nat)
  {
    if !Names(ip, account, s) || r.Err? || r.value.Throttled? then Kept(before, after, s, window)
    else if r.value.Granted? then Ended(after, s, window)
    else Grew(before, after, s, at, window)
  }

  /** When an attempt records. */
  function RecordsAt(resolved: Result<Option<nat>>, t: Moments): nat
  {
    if AccountOf(resolved).Some? then t.third else t.second
  }

  /** The account an attempt is for, as far as it got to know it. */
  function AccountOf(resolved: Result<Option<nat>>): Option<nat>
  {
    if resolved.Ok? then resolved.value else None
  }

  lemma AttemptCounts(history: History, ip: Option<string>, resolved: Result<Option<nat>>, verdict: Result<bool>,
                      policy: Policy, t: Moments, s: Subject)
    ensures Counted(history, Recorded(history, ip, resolved, verdict, policy, t), ip, AccountOf(resolved),
                    Answer(history, ip, resolved, verdict, policy, t),
                    RecordsAt(resolved, t), s, policy.window)
  {
    NotedCounts(history, ip, AccountOf(resolved), Failed(t.third), s, policy.window);
    NotedCounts(history, ip, AccountOf(resolved), Failed(t.second), s, policy.window);
    NotedCounts(history, ip, AccountOf(resolved), Cleared, s, policy.window);
  }

  /** The secret is checked: neither look at the throttle finds a subject that has failed too often. */
  ghost predicate Checked(history: History, ip: Option<string>, resolved: Result<Option<nat>>, policy: Policy,
                          t: Moments)
  {
    && resolved.Ok? && resolved.value.Some?
    && !Barred(history, ip, None, policy, t.first) && !Barred(history, ip, resolved.value, policy, t.second)
  }

  /** Every answer and when it is given. */
  lemma AnswerExact(history: History, ip: Option<string>, resolved: Result<Option<nat>>, verdict: Result<bool>,
                    policy: Policy, t: Moments)
    ensures var r := Answer(history, ip, resolved, verdict, policy, t);
            && (r == Ok(Throttled) <==>
                  || Barred(history, ip, None, policy, t.first)
                  || (resolved.Ok? && resolved.value.Some? && Barred(history, ip, resolved.value, policy, t.second)))
            && (forall a: nat :: r == Ok(Granted(a)) <==>
                  Checked(history, ip, resolved, policy, t) && resolved == Ok(Some(a)) && verdict == Ok(true))
            && (r == Ok(Denied) <==>
                  || (Checked(history, ip, resolved, policy, t) && verdict == Ok(false))
                  || (!Barred(history, ip, None, policy, t.first) && resolved == Ok(None)))
  {
    BarredIff(history, ip, None, policy, t.first);
    if resolved.Ok? { BarredIff(history, ip, resolved.value, policy, t.second); }
    if verdict.Ok? { assert verdict == Ok(verdict.value); }
  }

  /** The checks in the program's order; `evaluated` tells whether the stored credentials were consulted. */
  method AttemptLogin(throttle: Throttle, ip: Option<string>, resolved: Result<Option<nat>>, verdict: Result<bool>,
                      t: Moments) returns (r: Result<Attempt>, evaluated: bool)
    requires throttle.Valid() && InOrder(throttle.clock, t)
    modifies throttle, throttle.store
    ensures throttle.Valid() && throttle.clock <= t.third
    ensures evaluated <==> Reached(old(throttle.history), ip, resolved, throttle.policy, t)
    ensures r == Answer(old(throttle.history), ip, resolved, verdict, throttle.policy, t)
    ensures throttle.history == Recorded(old(throttle.history), ip, resolved, verdict, throttle.policy, t)
    ensures evaluated <==> Checked(old(throttle.history), ip, resolved, throttle.policy, t)
    ensures evaluated ==> r == if verdict.Err? then Err(verdict.error)
                               else if verdict.value then Ok(Granted(resolved.value.value)) else Ok(Denied)
    ensures forall s :: Counted(old(throttle.history), throttle.history, ip, AccountOf(resolved), r,
                                RecordsAt(resolved, t), s, throttle.policy.window)
  {
    ghost var before := throttle.history;
    forall s { AttemptCounts(before, ip, resolved, verdict, throttle.policy, t, s); }
    BarredIff(before, ip, None, throttle.policy, t.first);
    if resolved.Ok? { BarredIff(before, ip, resolved.value, throttle.policy, t.second); }
    evaluated := false;
    var locked := throttle.IsLocked(ip, None, t.first);
    if locked { return Ok(Throttled), false; }
    if resolved.Err? { return Err(resolved.error), false; }
    if resolved.value.None? {
      throttle.RecordFailure(ip, None, t.second);
      return Ok(Denied), false;
    }
    var account := resolved.value.value;
    locked := throttle.IsLocked(ip, Some(account), t.second);
    if locked { return Ok(Throttled), false; }
    evaluated := true;
    if verdict.Err? { return Err(verdict.error), true; }
    if verdict.value {
      throttle.RecordSuccess(ip, Some(account), t.third);
      r := Ok(Granted(account));
    } else {
      throttle.RecordFailure(ip, Some(account), t.third);
      r := Ok(Denied);
    }
  }

  // ----- No chain passes the limit -----

  /** At each failure the chain it ends is within the limit. */
  predicate Limited(h: seq<Mark>, policy: Policy)
  {
    forall k | 0 <= k < |h| && h[k].Failed? :: ChainLength(h[..k + 1], h[k].at, policy.window) <= policy.maxFailures
  }

  /** So it is for every subject, address or account. */
  predicate AllLimited(history: History, policy: Policy)
  {
    forall s | s in history :: Limited(history[s], policy)
  }

  lemma LimitedSnoc(h: seq<Mark>, mark: Mark, policy: Policy)
    requires Limited(h, policy)
    requires mark.Failed? ==> ChainLength(h, mark.at, policy.window) < policy.maxFailures
    ensures Limited(h + [mark], policy)
  {
    var grown := h + [mark];
    forall k | 0 <= k < |grown| && grown[k].Failed?
      ensures ChainLength(grown[..k + 1], grown[k].at, policy.window) <= policy.maxFailures
    {
      if k < |h| {
        assert grown[..k + 1] == h[..k + 1];
      } else {
        assert grown[..k + 1] == grown;
        ChainSnoc(h, mark, mark.at, policy.window);
      }
    }
  }

  lemma AppendedLimited(history: History, s: Subject, mark: Mark, policy: Policy)
    requires AllLimited(history, policy) && (mark.Failed? ==> !Full(history, s, policy, mark.at))
    ensures AllLimited(Appended(history, s, mark), policy)
  {
    LimitedSnoc(MarksOf(history, s), mark, policy);
  }

  lemma NotedLimited(history: History, ip: Option<string>, account: Option<nat>, mark: Mark, policy: Policy)
    requires AllLimited(history, policy)
    requires mark.Failed? ==> !LockedAt(history, ip, account, policy, mark.at)
    ensures AllLimited(Noted(history, ip, account, mark), policy)
  {
    var h := history;
    if ip.Some? {
      AppendedLimited(h, ByIp(ip.value), mark, policy);
      h := Appended(h, ByIp(ip.value), mark);
    }
    if account.Some? { AppendedLimited(h, ByAccount(account.value), mark, policy); }
  }

  /** What is not locked stays so until something is recorded. */
  lemma StaysUnlocked(history: History, ip: Option<string>, account: Option<nat>, policy: Policy, now: nat, later: nat)
    requires !LockedAt(history, ip, account, policy, now) && now <= later
    ensures !LockedAt(history, ip, account, policy, later)
  {
    if ip.Some? { ChainShrinks(MarksOf(history, ByIp(ip.value)), now, later, policy.window); }
    if account.Some? { ChainShrinks(MarksOf(history, ByAccount(account.value)), now, later, policy.window); }
  }

  /** No attempt takes a chain past the limit, an account's or an address's. */
  lemma AttemptKeepsLimits(history: History, ip: Option<string>, resolved: Result<Option<nat>>, verdict: Result<bool>,
                           policy: Policy, t: Moments)
    requires AllLimited(history, policy) && InOrder(0, t)
    ensures AllLimited(Recorded(history, ip, resolved, verdict, policy, t), policy)
  {
    if Reached(history, ip, resolved, policy, t) {
      StaysUnlocked(history, ip, resolved.value, policy, t.second, t.third);
      if verdict.Ok? {
        NotedLimited(history, ip, resolved.value, if verdict.value then Cleared else Failed(t.third), policy);
      }
    } else if !LockedAt(history, ip, None, policy, t.first) {
      StaysUnlocked(history, ip, None, policy, t.first, t.second);
      NotedLimited(history, ip, None, Failed(t.second), policy);
    }
  }

  lemma {:induction false} LinkedRun(h: seq<Mark>, i: nat, n: nat, window: nat)
    requires 0 < n && i + n <= |h| && h[i + n - 1].Failed? && window > 0
    requires forall k | i <= k < i + n - 1 :: Linked(h, k, window)
    ensures ChainLength(h[..i + n], h[i + n - 1].at, window) >= n
  {
    var head := h[..i + n];
    assert head[..i + n - 1] == h[..i + n - 1];
    if n > 1 {
      assert Linked(h, i + n - 2, window);
      LinkedRun(h, i, n - 1, window);
      StretchChain(h[..i + n - 1], h[i + n - 2].at, h[i + n - 1].at, window);
    }
  }

  lemma StretchChain(h: seq<Mark>, now: nat, later: nat, window: nat)
    requires h != [] && h[|h| - 1] == Failed(now) && later < now + window && window > 0
    ensures ChainLength(h, later, window) == ChainLength(h, now, window)
  {
  }

  /** Among one more failures of a subject than the limit, in a row and without a success between, two
      neighbours lie at least a window apart. For an account that is so whatever addresses they came from. */
  lemma FailureRate(h: seq<Mark>, clock: nat, i: nat, policy: Policy)
    requires Limited(h, policy) && 1 <= policy.maxFailures && i + policy.maxFailures < |h| && Timely(h, clock)
    requires forall k | i <= k <= i + policy.maxFailures :: h[k].Failed?
    ensures exists k | i <= k < i + policy.maxFailures :: h[k + 1].at >= h[k].at + policy.window
  {
    var n, window := policy.maxFailures, policy.window;
    if window > 0 && forall k | i <= k < i + n :: Linked(h, k, window) {
      LinkedRun(h, i, n + 1, window);
    } else {
      var k :| i <= k < i + n && (window == 0 || !Linked(h, k, window));
      assert h[k].Failed? && h[k + 1].Failed?;
    }
  }
}
