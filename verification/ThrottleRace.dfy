/** One failure counter used by several workers at the same time. A request looks whether the subject is
    locked, checks its secret, and on a failure reads the counter and writes it back one higher; nothing is
    held in between. How long a chain of failures can get, exactly, and when the counter counts it. */
module ThrottleRace {
  import opened Common
  import opened Bytes
  import opened Throttle

  /** What a worker is at: nothing, a request let past the check, or one that failed and has read the counter. */
  datatype Slot = Idle | Admitted | Counted(read: nat)

  /** The subject's counter, the workers, everything recorded, and the latest instant. */
  datatype State = State(entry: Option<Entry<nat>>, slots: seq<Slot>, history: seq<Mark>, clock: nat)

  datatype Event =
    | Admit(w: nat, now: nat)   // not locked: on to checking the secret
    | Leave(w: nat, now: nat)   // an error, or the request's other subject is locked
    | Succeed(w: nat, now: nat) // the counter is removed
    | Look(w: nat, now: nat)    // a failure: the counter is read
    | Store(w: nat, now: nat)   // and written

  function CountAt(entry: Option<Entry<nat>>, now: nat): nat
  {
    if entry.Some? && now < entry.value.expiresAt then entry.value.value else 0
  }

  function Bumped(n: nat): nat
  {
    Saturated(n + 1)
  }

  function Start(workers: nat): State
  {
    State(None, seq(workers, _ => Idle), [], 0)
  }

  predicate Enabled(s: State, e: Event, p: Policy)
  {
    && s.clock <= e.now && e.w < |s.slots|
    && match e
       case Admit(w, now) => s.slots[w].Idle? && CountAt(s.entry, now) < p.maxFailures
       case Leave(w, _) => s.slots[w].Admitted?
       case Succeed(w, _) => s.slots[w].Admitted?
       case Look(w, _) => s.slots[w].Admitted?
       case Store(w, _) => s.slots[w].Counted?
  }

  function Next(s: State, e: Event, p: Policy): State
    requires Enabled(s, e, p)
  {
    match e
    case Admit(w, now) => s.(slots := s.slots[w := Admitted], clock := now)
    case Leave(w, now) => s.(slots := s.slots[w := Idle], clock := now)
    case Succeed(w, now) => State(None, s.slots[w := Idle], s.history + [Cleared], now)
    case Look(w, now) => s.(slots := s.slots[w := Counted(CountAt(s.entry, now))], clock := now)
    case Store(w, now) =>
      State(Some(Entry(Bumped(s.slots[w].read), now + p.window)), s.slots[w := Idle], s.history + [Failed(now)], now)
  }

  /** No write takes the counter below one more than what it finds. */
  predicate Covers(s: State, e: Event)
  {
    e.Store? && e.w < |s.slots| && s.slots[e.w].Counted? ==>
      Bumped(CountAt(s.entry, e.now)) <= Bumped(s.slots[e.w].read)
  }

  /** s' is reached from s by these events; if careful, every write covers what it finds. */
  ghost predicate Reaches(p: Policy, careful: bool, s: State, events: seq<Event>, s': State)
    decreases |events|
  {
    if events == [] then s == s' else
      && Enabled(s, events[0], p) && (careful ==> Covers(s, events[0]))
      && Reaches(p, careful, Next(s, events[0], p), events[1..], s')
  }

  ghost predicate Leads(p: Policy, careful: bool, s: State, s': State)
  {
    exists events :: Reaches(p, careful, s, events, s')
  }

  function Chain(s: State, p: Policy): nat
  {
    ChainLength(s.history, s.clock, p.window)
  }

  /** In every state that this many workers can reach, the chain of failures is no longer than b. */
  ghost predicate AllWithin(p: Policy, careful: bool, workers: nat, b: nat)
  {
    forall s | Leads(p, careful, Start(workers), s) :: Chain(s, p) <= b
  }

  // ----- When the counter counts -----

  /** From now on the counter reads as the length of the chain. */
  ghost predicate Exact(s: State, p: Policy)
  {
    forall t | t >= s.clock :: CountAt(s.entry, t) == Saturated(ChainLength(s.history, t, p.window))
  }

  /** A write finds the count its request had read, or one as good as that once saturated. */
  predicate Finds(s: State, e: Event, p: Policy)
  {
    e.Store? && e.w < |s.slots| && s.slots[e.w].Counted? && p.window > 0 ==>
      Bumped(CountAt(s.entry, e.now)) == Bumped(s.slots[e.w].read)
  }

  ghost predicate ExactAlong(s: State, events: seq<Event>, p: Policy)
    decreases |events|
  {
    && Exact(s, p)
    && (events != [] && Enabled(s, events[0], p) ==> ExactAlong(Next(s, events[0], p), events[1..], p))
  }

  predicate FindsAlong(s: State, events: seq<Event>, p: Policy)
    decreases |events|
  {
    events != [] && Enabled(s, events[0], p) ==>
      Finds(s, events[0], p) && FindsAlong(Next(s, events[0], p), events[1..], p)
  }

  lemma StoreReads(s: State, e: Event, p: Policy, t: nat)
    requires Enabled(s, e, p) && e.Store? && t >= e.now
    ensures var s' := Next(s, e, p);
            && CountAt(s'.entry, t) == (if t < e.now + p.window then Bumped(s.slots[e.w].read) else 0)
            && ChainLength(s'.history, t, p.window) ==
               if t < e.now + p.window then 1 + ChainLength(s.history, e.now, p.window) else 0
  {
    ChainSnoc(s.history, Failed(e.now), t, p.window);
  }

  lemma StoreExactIff(s: State, e: Event, p: Policy)
    requires Exact(s, p) && Enabled(s, e, p) && e.Store?
    ensures Exact(Next(s, e, p), p) <==> Finds(s, e, p)
  {
    var s', length := Next(s, e, p), ChainLength(s.history, e.now, p.window);
    assert CountAt(s.entry, e.now) == Saturated(length);
    assert Bumped(Saturated(length)) == Saturated(1 + length);
    if Finds(s, e, p) {
      forall t | t >= e.now ensures CountAt(s'.entry, t) == Saturated(ChainLength(s'.history, t, p.window)) {
        StoreReads(s, e, p, t);
      }
    } else {
      StoreReads(s, e, p, e.now);
      assert CountAt(s'.entry, e.now) != Saturated(ChainLength(s'.history, e.now, p.window));
    }
  }

  lemma StepExactIff(s: State, e: Event, p: Policy)
    requires Exact(s, p) && Enabled(s, e, p)
    ensures Exact(Next(s, e, p), p) <==> Finds(s, e, p)
  {
    if e.Store? {
      StoreExactIff(s, e, p);
    } else if e.Succeed? {
      forall t | t >= e.now ensures ChainLength(s.history + [Cleared], t, p.window) == 0 {
        ChainSnoc(s.history, Cleared, t, p.window);
      }
    }
  }

  /** In every interleaving, the counter reads as the chain at every moment exactly when every write finds the
      count its request had read. */
  lemma {:induction false} CountsIff(s: State, events: seq<Event>, p: Policy)
    requires Exact(s, p)
    ensures ExactAlong(s, events, p) <==> FindsAlong(s, events, p)
    decreases |events|
  {
    if events != [] && Enabled(s, events[0], p) {
      StepExactIff(s, events[0], p);
      if Finds(s, events[0], p) { CountsIff(Next(s, events[0], p), events[1..], p); }
    }
  }

  // ----- The numbers -----

  /** Pascal's rule: the number of ways to choose p of p + u. */
  function Choices(p: nat, u: nat): (r: nat)
    ensures r >= 1
  {
    if p == 0 || u == 0 then 1 else Choices(p - 1, u) + Choices(p, u - 1)
  }

  function Factorial(n: nat): (r: nat)
    ensures r >= 1
  {
    if n == 0 then 1 else n * Factorial(n - 1)
  }

  lemma Spread(a: nat, b: nat, p: nat, u: nat, x: nat, y: nat)
    ensures (a + b) * ((p * x) * (u * y)) == p * (a * (x * (u * y))) + u * (b * ((p * x) * y))
  {
    var z := (p * x) * (u * y);
    assert (a + b) * z == a * z + b * z;
    assert z == p * (x * (u * y)) && z == u * ((p * x) * y);
    assert a * (p * (x * (u * y))) == p * (a * (x * (u * y)));
    assert b * (u * ((p * x) * y)) == u * (b * ((p * x) * y));
  }

  lemma {:induction false} ChoicesIsBinomial(p: nat, u: nat)
    ensures Choices(p, u) * (Factorial(p) * Factorial(u)) == Factorial(p + u)
  {
    if p > 0 && u > 0 {
      ChoicesIsBinomial(p - 1, u);
      ChoicesIsBinomial(p, u - 1);
      Spread(Choices(p - 1, u), Choices(p, u - 1), p, u, Factorial(p - 1), Factorial(u - 1));
      Together(p, u, Factorial(p + u - 1));
    }
  }

  lemma Together(p: nat, u: nat, f: nat)
    ensures p * f + u * f == (p + u) * f
  {
  }

  lemma {:induction false} OneOf(p: nat)
    ensures Choices(p, 1) == p + 1 && Choices(1, p) == p + 1
  {
    if p > 0 { OneOf(p - 1); }
  }

  /** What p workers not below a count that is u short of the limit are worth. */
  function Weight(p: nat, u: nat): nat
  {
    if p == 0 then 0 else Choices(p - 1, u + 1)
  }

  lemma WeightIs(p: nat, u: nat)
    ensures Weight(p, u) == Choices(p, u + 1) - Choices(p, u)
    ensures Weight(p + 1, u) == Weight(p, u) + Choices(p, u)
  {
  }

  lemma {:induction false} ChoicesGrow(p: nat, q: nat, u: nat)
    requires p <= q
    ensures Choices(p, u) <= Choices(q, u)
    decreases q
  {
    if p < q { ChoicesGrow(p, q - 1, u); }
  }

  lemma WeightGrows(p: nat, q: nat, u: nat)
    requires p <= q
    ensures Weight(p, u) <= Weight(q, u)
  {
    if p > 0 { ChoicesGrow(p - 1, q - 1, u + 1); }
  }

  /** n[v] workers are not below count v; what they are worth together for the counts from a to m - 1. */
  function Worth(n: seq<nat>, a: nat, m: nat): nat
    requires |n| == m
    decreases m - a
  {
    if a >= m then 0 else Weight(n[a], m - a) + Worth(n, a + 1, m)
  }

  lemma {:induction false} WorthGrows(n: seq<nat>, n': seq<nat>, a: nat, m: nat)
    requires |n| == |n'| == m && forall v | a <= v < m :: n[v] <= n'[v]
    ensures Worth(n, a, m) <= Worth(n', a, m)
    decreases m - a
  {
    if a < m {
      WeightGrows(n[a], n'[a], m - a);
      WorthGrows(n, n', a + 1, m);
    }
  }

  /** The counts from a on are worth no more than one step at the count before them, with most workers there. */
  lemma {:induction false} WorthWithin(n: seq<nat>, a: nat, m: nat, most: nat)
    requires |n| == m && 0 < a <= m && forall v | a <= v < m :: n[v] <= most
    ensures Worth(n, a, m) + most + 1 <= Choices(most, m - a + 1)
    decreases m - a
  {
    if a < m {
      WorthWithin(n, a + 1, m, most);
      WeightGrows(n[a], most, m - a);
      WeightIs(most, m - a);
    } else {
      OneOf(most);
    }
  }

  /** The counter goes back to x: one worker more is not below x, and that is worth more than all above it. */
  lemma {:induction false} ResetPays(n: seq<nat>, n': seq<nat>, a: nat, x: nat, m: nat, idle: nat)
    requires |n| == |n'| == m && 0 < a <= x < m
    requires forall v | a <= v < x :: n[v] <= n'[v]
    requires n[x] + 1 <= n'[x] && idle <= n[x] && forall v | x < v < m :: n[v] <= n[x]
    ensures Worth(n, a, m) + idle + 1 <= Worth(n', a, m)
    decreases x - a
  {
    if a < x {
      WeightGrows(n[a], n'[a], m - a);
      ResetPays(n, n', a + 1, x, m, idle);
    } else {
      WorthWithin(n, x + 1, m, n[x]);
      WeightIs(n[x], m - x);
      WeightGrows(n[x] + 1, n'[x], m - x);
    }
  }

  // ----- Counting workers -----

  function Trues(bs: seq<bool>): (n: nat)
    ensures n <= |bs|
  {
    if bs == [] then 0 else Trues(bs[..|bs| - 1]) + if bs[|bs| - 1] then 1 else 0
  }

  lemma {:induction false} TruesGrow(a: seq<bool>, b: seq<bool>)
    requires |a| == |b| && forall i | 0 <= i < |a| :: a[i] ==> b[i]
    ensures Trues(a) <= Trues(b)
  {
    if a != [] { TruesGrow(a[..|a| - 1], b[..|b| - 1]); }
  }

  lemma {:induction false} OneMoreTrue(a: seq<bool>, b: seq<bool>, w: nat)
    requires |a| == |b| && w < |a| && !a[w] && b[w] && forall i | 0 <= i < |a| :: a[i] ==> b[i]
    ensures Trues(a) + 1 <= Trues(b)
    decreases |a|
  {
    var n := |a| - 1;
    if w < n { OneMoreTrue(a[..n], b[..n], w); } else { TruesGrow(a[..n], b[..n]); }
  }

  lemma {:induction false} OneChanged(a: seq<bool>, w: nat, x: bool)
    requires w < |a|
    ensures Trues(a[w := x]) + (if a[w] then 1 else 0) == Trues(a) + if x then 1 else 0
    decreases |a|
  {
    var n := |a| - 1;
    if w < n {
      OneChanged(a[..n], w, x);
      assert a[w := x][..n] == a[..n][w := x];
    } else {
      assert a[w := x][..n] == a[..n];
    }
  }

  /** The count a worker stands at: its own if it has read one, else that of the counter. */
  function Stands(slot: Slot, count: nat): nat
  {
    if slot.Counted? then slot.read else count
  }

  function NotBelow(slots: seq<Slot>, count: nat, v: nat): seq<bool>
  {
    seq(|slots|, i requires 0 <= i < |slots| => Stands(slots[i], count) >= v)
  }

  function Idles(slots: seq<Slot>): seq<bool>
  {
    seq(|slots|, i requires 0 <= i < |slots| => slots[i].Idle?)
  }

  function Profile(slots: seq<Slot>, count: nat, m: nat): (n: seq<nat>)
    ensures |n| == m && forall v | 0 <= v < m :: n[v] == Trues(NotBelow(slots, count, v)) <= |slots|
  {
    seq(m, v requires 0 <= v < m => Trues(NotBelow(slots, count, v)))
  }

  // ----- No chain is longer -----

  /** What the workers and the counter leave room for. */
  function Room(slots: seq<Slot>, count: nat, m: nat): nat
  {
    Worth(Profile(slots, count, m), 1, m) + if count >= m then Trues(Idles(slots)) else 0
  }

  /** The counter was written with the last failure, or there is none since the last success. */
  predicate Kept(s: State, p: Policy)
  {
    match s.entry
    case None => s.history == [] || s.history[|s.history| - 1].Cleared?
    case Some(e) =>
      s.history != [] && s.history[|s.history| - 1].Failed? && e.expiresAt == s.history[|s.history| - 1].at + p.window
  }

  predicate Bounded(s: State, p: Policy)
  {
    Kept(s, p) && Chain(s, p) <= Room(s.slots, CountAt(s.entry, s.clock), p.maxFailures)
  }

  lemma WaitBounded(s: State, now: nat, p: Policy)
    requires Bounded(s, p) && s.clock <= now
    ensures Bounded(s.(clock := now), p)
  {
  }

  lemma SameRoom(a: seq<Slot>, b: seq<Slot>, count: nat, m: nat)
    requires |a| == |b| && forall i | 0 <= i < |a| :: Stands(a[i], count) == Stands(b[i], count)
    requires count >= m ==> forall i | 0 <= i < |a| :: a[i].Idle? ==> b[i].Idle?
    ensures Room(a, count, m) <= Room(b, count, m)
  {
    forall v | 0 <= v < m ensures Profile(a, count, m)[v] == Profile(b, count, m)[v] {
      assert NotBelow(a, count, v) == NotBelow(b, count, v);
    }
    assert Profile(a, count, m) == Profile(b, count, m);
    if count >= m { TruesGrow(Idles(a), Idles(b)); }
  }

  /** A write that locks: every worker without a count of its own now stands at the limit or above. */
  lemma LockingWrite(slots: seq<Slot>, w: nat, count: nat, count': nat, m: nat)
    requires w < |slots| && slots[w].Counted? && slots[w].read + 1 >= m && count' >= m
    ensures Room(slots, count, m) + 1 <= Room(slots[w := Idle], count', m)
  {
    var slots' := slots[w := Idle];
    forall v | 1 <= v < m ensures Profile(slots, count, m)[v] <= Profile(slots', count', m)[v] {
      TruesGrow(NotBelow(slots, count, v), NotBelow(slots', count', v));
    }
    WorthGrows(Profile(slots, count, m), Profile(slots', count', m), 1, m);
    assert Idles(slots') == Idles(slots)[w := true];
    OneChanged(Idles(slots), w, true);
  }

  /** A write that does not: it may take the counter back, and the worker who wrote it pays for that. */
  lemma OpeningWrite(slots: seq<Slot>, w: nat, count: nat, m: nat)
    requires w < |slots| && slots[w].Counted? && slots[w].read + 1 < m
    ensures Room(slots, count, m) + 1 <= Room(slots[w := Idle], slots[w].read + 1, m)
  {
    var x, slots' := slots[w].read + 1, slots[w := Idle];
    var n, n' := Profile(slots, count, m), Profile(slots', x, m);
    forall v | 1 <= v < x ensures n[v] <= n'[v] {
      TruesGrow(NotBelow(slots, count, v), NotBelow(slots', x, v));
    }
    OneMoreTrue(NotBelow(slots, count, x), NotBelow(slots', x, x), w);
    forall v | x < v < m ensures n[v] <= n[x] {
      TruesGrow(NotBelow(slots, count, v), NotBelow(slots, count, x));
    }
    if count >= m { TruesGrow(Idles(slots), NotBelow(slots, count, x)); }
    ResetPays(n, n', 1, x, m, if count >= m then Trues(Idles(slots)) else 0);
  }

  lemma StoreBounded(s: State, e: Event, p: Policy)
    requires Bounded(s, p) && Enabled(s, e, p) && e.Store? && e.now == s.clock && p.maxFailures < TWO_32
    ensures Bounded(Next(s, e, p), p)
  {
    var s', m, r := Next(s, e, p), p.maxFailures, s.slots[e.w].read;
    StoreReads(s, e, p, e.now);
    if p.window > 0 {
      if r + 1 >= m {
        LockingWrite(s.slots, e.w, CountAt(s.entry, e.now), Bumped(r), m);
      } else {
        OpeningWrite(s.slots, e.w, CountAt(s.entry, e.now), m);
      }
    }
  }

  lemma StepBounded(s: State, e: Event, p: Policy)
    requires Bounded(s, p) && Enabled(s, e, p) && p.maxFailures < TWO_32
    ensures Bounded(Next(s, e, p), p)
  {
    WaitBounded(s, e.now, p);
    var s0, s' := s.(clock := e.now), Next(s, e, p);
    if e.Store? {
      StoreBounded(s0, e, p);
    } else if e.Succeed? {
      ChainSnoc(s.history, Cleared, e.now, p.window);
    } else {
      SameRoom(s0.slots, s'.slots, CountAt(s0.entry, e.now), p.maxFailures);
    }
  }

  lemma {:induction false} RunBounded(p: Policy, careful: bool, s: State, events: seq<Event>, s': State)
    requires Bounded(s, p) && p.maxFailures < TWO_32 && Reaches(p, careful, s, events, s')
    ensures Bounded(s', p) && |s'.slots| == |s.slots|
    decreases |events|
  {
    if events != [] {
      StepBounded(s, events[0], p);
      RunBounded(p, careful, Next(s, events[0], p), events[1..], s');
    }
  }

  lemma RoomWithin(slots: seq<Slot>, count: nat, m: nat)
    requires m >= 1
    ensures Room(slots, count, m) + 1 <= Choices(|slots|, m)
  {
    WorthWithin(Profile(slots, count, m), 1, m, |slots|);
  }

  // ----- Some chain is as long -----

  function Fails(n: nat): seq<Mark>
  {
    seq(n, _ => Failed(0))
  }

  lemma {:induction false} FailsChain(n: nat, window: nat)
    requires window > 0
    ensures ChainLength(Fails(n), 0, window) == n
  {
    if n > 0 {
      assert Fails(n)[..n - 1] == Fails(n - 1);
      FailsChain(n - 1, window);
    }
  }

  /** All within one instant: the counter reads count, and n failures are recorded. */
  function Moment(p: Policy, slots: seq<Slot>, count: nat, n: nat): State
  {
    State(if count == 0 then None else Some(Entry(count, p.window)), slots, Fails(n), 0)
  }

  lemma {:induction false} ReachesConcat(p: Policy, careful: bool, s: State, a: seq<Event>, mid: State,
                                         b: seq<Event>, s': State)
    requires Reaches(p, careful, s, a, mid) && Reaches(p, careful, mid, b, s')
    ensures Reaches(p, careful, s, a + b, s')
    decreases |a|
  {
    if a == [] {
      assert a + b == b;
    } else {
      assert (a + b)[1..] == a[1..] + b;
      ReachesConcat(p, careful, Next(s, a[0], p), a[1..], mid, b, s');
    }
  }

  lemma Stays(p: Policy, careful: bool, s: State)
    ensures Leads(p, careful, s, s)
  {
    assert Reaches(p, careful, s, [], s);
  }

  lemma LeadsOn(p: Policy, careful: bool, s: State, mid: State, s': State)
    requires Leads(p, careful, s, mid) && Leads(p, careful, mid, s')
    ensures Leads(p, careful, s, s')
  {
    var a :| Reaches(p, careful, s, a, mid);
    var b :| Reaches(p, careful, mid, b, s');
    ReachesConcat(p, careful, s, a, mid, b, s');
  }

  lemma LeadsStep(p: Policy, careful: bool, s: State, e: Event, s': State)
    requires Enabled(s, e, p) && (careful ==> Covers(s, e)) && Next(s, e, p) == s'
    ensures Leads(p, careful, s, s')
  {
    assert Reaches(p, careful, s', [], s') && [e][1..] == [];
    assert Reaches(p, careful, s, [e], s');
  }

  lemma Admits(p: Policy, careful: bool, slots: seq<Slot>, count: nat, n: nat, w: nat)
    requires p.window > 0 && w < |slots| && slots[w].Idle? && count < p.maxFailures
    ensures Leads(p, careful, Moment(p, slots, count, n), Moment(p, slots[w := Admitted], count, n))
  {
    LeadsStep(p, careful, Moment(p, slots, count, n), Admit(w, 0), Moment(p, slots[w := Admitted], count, n));
  }

  lemma Looks(p: Policy, careful: bool, slots: seq<Slot>, count: nat, n: nat, w: nat)
    requires p.window > 0 && w < |slots| && slots[w].Admitted?
    ensures Leads(p, careful, Moment(p, slots, count, n), Moment(p, slots[w := Counted(count)], count, n))
  {
    LeadsStep(p, careful, Moment(p, slots, count, n), Look(w, 0), Moment(p, slots[w := Counted(count)], count, n));
  }

  lemma Stores(p: Policy, careful: bool, slots: seq<Slot>, count: nat, n: nat, w: nat)
    requires p.window > 0 && w < |slots| && slots[w].Counted?
    requires careful ==> Bumped(count) <= Bumped(slots[w].read)
    ensures Leads(p, careful, Moment(p, slots, count, n), Moment(p, slots[w := Idle], Bumped(slots[w].read), n + 1))
  {
    assert Fails(n + 1) == Fails(n) + [Failed(0)];
    LeadsStep(p, careful, Moment(p, slots, count, n), Store(w, 0),
              Moment(p, slots[w := Idle], Bumped(slots[w].read), n + 1));
  }

  /** A worker is let in and reads the counter. */
  lemma Takes(p: Policy, careful: bool, slots: seq<Slot>, count: nat, n: nat, w: nat)
    requires p.window > 0 && w < |slots| && slots[w].Idle? && count < p.maxFailures
    ensures Leads(p, careful, Moment(p, slots, count, n), Moment(p, slots[w := Counted(count)], count, n))
  {
    Admits(p, careful, slots, count, n, w);
    Looks(p, careful, slots[w := Admitted], count, n, w);
    assert slots[w := Admitted][w := Counted(count)] == slots[w := Counted(count)];
    LeadsOn(p, careful, Moment(p, slots, count, n), Moment(p, slots[w := Admitted], count, n),
            Moment(p, slots[w := Counted(count)], count, n));
  }

  /** A worker that read the counter takes it back to one above that. */
  lemma TakesBack(p: Policy, start: State, slots: seq<Slot>, w: nat, count: nat, now: nat, n: nat)
    requires p.window > 0 && w < |slots| && slots[w].Idle? && count + 1 < TWO_32
    requires Leads(p, false, start, Moment(p, slots[w := Counted(count)], now, n))
    ensures Leads(p, false, start, Moment(p, slots, count + 1, n + 1))
  {
    var held := slots[w := Counted(count)];
    Stores(p, false, held, now, n, w);
    assert held[w := Idle] == slots;
    LeadsOn(p, false, start, Moment(p, held, now, n), Moment(p, slots, count + 1, n + 1));
  }

  /** The first `idle` workers, at a count u short of the limit, record as many failures as there are choices,
      less one: the last of them reads the counter and waits, the others go on as far as they can, it takes the
      counter back to one above what it read, and all go on from there. */
  lemma {:induction false} Play(p: Policy, slots: seq<Slot>, idle: nat, u: nat, n: nat) returns (count: nat)
    requires p.window > 0 && u <= p.maxFailures < TWO_32 && idle <= |slots|
    requires forall i | 0 <= i < idle :: slots[i].Idle?
    ensures Leads(p, false, Moment(p, slots, p.maxFailures - u, n),
                  Moment(p, slots, count, n + Choices(idle, u) - 1))
    decreases u, idle
  {
    count := p.maxFailures - u;
    var start := Moment(p, slots, count, n);
    if idle == 0 || u == 0 {
      Stays(p, false, start);
    } else {
      var w, held := idle - 1, slots[idle - 1 := Counted(count)];
      var n1 := n + Choices(idle - 1, u) - 1;
      Takes(p, false, slots, count, n, w);
      var c1 := Play(p, held, idle - 1, u, n);
      LeadsOn(p, false, start, Moment(p, held, count, n), Moment(p, held, c1, n1));
      TakesBack(p, start, slots, w, count, c1, n1);
      var c2 := Play(p, slots, idle, u - 1, n1 + 1);
      LeadsOn(p, false, start, Moment(p, slots, count + 1, n1 + 1),
              Moment(p, slots, c2, n + Choices(idle, u) - 1));
      count := c2;
    }
  }

  /** With so many workers the longest chain of failures is exactly as long as there are ways to choose the
      workers out of workers and limit together, less one. */
  lemma LongestChainIff(p: Policy, workers: nat, b: nat)
    requires 1 <= p.maxFailures < TWO_32 && p.window > 0
    ensures AllWithin(p, false, workers, b) <==> Choices(workers, p.maxFailures) - 1 <= b
  {
    var m, start := p.maxFailures, Start(workers);
    if Choices(workers, m) - 1 <= b {
      forall s | Leads(p, false, start, s) ensures Chain(s, p) <= b {
        var events :| Reaches(p, false, start, events, s);
        RunBounded(p, false, start, events, s);
        RoomWithin(s.slots, CountAt(s.entry, s.clock), m);
      }
    } else {
      assert start == Moment(p, start.slots, 0, 0);
      var count := Play(p, start.slots, workers, m, 0);
      var longest := Moment(p, start.slots, count, Choices(workers, m) - 1);
      assert Leads(p, false, start, longest);
      FailsChain(Choices(workers, m) - 1, p.window);
    }
  }

  lemma MoreThanLimit(workers: nat, m: nat)
    requires workers >= 2 && m >= 1
    ensures Choices(workers, m) - 1 > m
  {
    OneOf(m);
    assert Choices(2, m) == Choices(1, m) + Choices(2, m - 1);
    ChoicesGrow(2, workers, m);
  }

  /** The limit holds in every run exactly when there is no second worker. */
  lemma LimitHoldsIff(p: Policy, workers: nat)
    requires 1 <= p.maxFailures < TWO_32 && p.window > 0
    ensures AllWithin(p, false, workers, p.maxFailures) <==> workers <= 1
  {
    LongestChainIff(p, workers, p.maxFailures);
    OneOf(p.maxFailures);
    if workers >= 2 { MoreThanLimit(workers, p.maxFailures); }
  }

  // ----- Where no write loses a count -----

  /** From now on the counter never reads below the chain. */
  ghost predicate NeverUnder(s: State, p: Policy)
  {
    forall t | t >= s.clock :: Saturated(ChainLength(s.history, t, p.window)) <= CountAt(s.entry, t)
  }

  /** And the chain leaves a worker idle for each failure past the limit. */
  ghost predicate Guarded(s: State, p: Policy)
  {
    NeverUnder(s, p) && Chain(s, p) < p.maxFailures + Trues(Idles(s.slots))
  }

  lemma BumpedCovers(length: nat, found: nat, read: nat)
    requires Saturated(length) <= found && Bumped(found) <= Bumped(read)
    ensures Saturated(1 + length) <= Bumped(read)
  {
  }

  lemma StoreNeverUnder(s: State, e: Event, p: Policy)
    requires NeverUnder(s, p) && Enabled(s, e, p) && e.Store? && Covers(s, e)
    ensures NeverUnder(Next(s, e, p), p)
  {
    var s', length := Next(s, e, p), ChainLength(s.history, e.now, p.window);
    BumpedCovers(length, CountAt(s.entry, e.now), s.slots[e.w].read);
    forall t | t >= s'.clock ensures Saturated(ChainLength(s'.history, t, p.window)) <= CountAt(s'.entry, t) {
      StoreReads(s, e, p, t);
    }
  }

  lemma StoreGuarded(s: State, e: Event, p: Policy)
    requires Guarded(s, p) && Enabled(s, e, p) && e.Store? && Covers(s, e)
    ensures Guarded(Next(s, e, p), p)
  {
    StoreNeverUnder(s, e, p);
    ChainShrinks(s.history, s.clock, e.now, p.window);
    StoreReads(s, e, p, e.now);
    assert Idles(Next(s, e, p).slots) == Idles(s.slots)[e.w := true];
    OneChanged(Idles(s.slots), e.w, true);
  }

  lemma StepGuarded(s: State, e: Event, p: Policy)
    requires Guarded(s, p) && Enabled(s, e, p) && Covers(s, e) && 1 <= p.maxFailures < TWO_32
    ensures Guarded(Next(s, e, p), p)
  {
    var s' := Next(s, e, p);
    ChainShrinks(s.history, s.clock, e.now, p.window);
    assert Idles(s'.slots) == Idles(s.slots)[e.w := s'.slots[e.w].Idle?];
    OneChanged(Idles(s.slots), e.w, s'.slots[e.w].Idle?);
    if e.Store? {
      StoreGuarded(s, e, p);
    } else if e.Succeed? {
      forall t | t >= e.now ensures ChainLength(s'.history, t, p.window) == 0 {
        ChainSnoc(s.history, Cleared, t, p.window);
      }
    } else if e.Admit? {
      assert Saturated(ChainLength(s.history, e.now, p.window)) <= CountAt(s.entry, e.now);
    }
  }

  lemma {:induction false} RunGuarded(p: Policy, s: State, events: seq<Event>, s': State)
    requires Guarded(s, p) && 1 <= p.maxFailures < TWO_32 && Reaches(p, true, s, events, s')
    ensures Guarded(s', p) && |s'.slots| == |s.slots|
    decreases |events|
  {
    if events != [] {
      StepGuarded(s, events[0], p);
      RunGuarded(p, Next(s, events[0], p), events[1..], s');
    }
  }

  /** The workers from i to j - 1 have been let in, the others are idle. */
  function Crowd(workers: nat, i: nat, j: nat): seq<Slot>
  {
    seq(workers, x => if i <= x < j then Admitted else Idle)
  }

  lemma {:induction false} OneByOne(p: Policy, workers: nat, n: nat)
    requires p.window > 0 && workers >= 1 && n < p.maxFailures < TWO_32
    ensures Leads(p, true, Moment(p, Crowd(workers, 0, 0), 0, 0), Moment(p, Crowd(workers, 0, 0), n, n))
  {
    var slots := Crowd(workers, 0, 0);
    var start := Moment(p, slots, 0, 0);
    if n == 0 {
      Stays(p, true, start);
    } else {
      var held := slots[0 := Counted(n - 1)];
      OneByOne(p, workers, n - 1);
      Takes(p, true, slots, n - 1, n - 1, 0);
      LeadsOn(p, true, start, Moment(p, slots, n - 1, n - 1), Moment(p, held, n - 1, n - 1));
      Stores(p, true, held, n - 1, n - 1, 0);
      assert held[0 := Idle] == slots;
      LeadsOn(p, true, start, Moment(p, held, n - 1, n - 1), Moment(p, slots, n, n));
    }
  }

  lemma {:induction false} AllAdmitted(p: Policy, workers: nat, i: nat, n: nat)
    requires p.window > 0 && i <= workers && n < p.maxFailures
    ensures Leads(p, true, Moment(p, Crowd(workers, 0, 0), n, n), Moment(p, Crowd(workers, 0, i), n, n))
  {
    var start := Moment(p, Crowd(workers, 0, 0), n, n);
    if i == 0 {
      Stays(p, true, start);
    } else {
      AllAdmitted(p, workers, i - 1, n);
      Admits(p, true, Crowd(workers, 0, i - 1), n, n, i - 1);
      assert Crowd(workers, 0, i - 1)[i - 1 := Admitted] == Crowd(workers, 0, i);
      LeadsOn(p, true, start, Moment(p, Crowd(workers, 0, i - 1), n, n), Moment(p, Crowd(workers, 0, i), n, n));
    }
  }

  lemma {:induction false} AllFail(p: Policy, workers: nat, i: nat, n: nat)
    requires p.window > 0 && i <= workers
    ensures Leads(p, true, Moment(p, Crowd(workers, 0, workers), Saturated(n), n),
                  Moment(p, Crowd(workers, i, workers), Saturated(n + i), n + i))
  {
    var start := Moment(p, Crowd(workers, 0, workers), Saturated(n), n);
    if i == 0 {
      Stays(p, true, start);
    } else {
      var slots, w, c, k := Crowd(workers, i - 1, workers), i - 1, Saturated(n + (i - 1)), n + (i - 1);
      var held := slots[w := Counted(c)];
      AllFail(p, workers, i - 1, n);
      Looks(p, true, slots, c, k, w);
      LeadsOn(p, true, start, Moment(p, slots, c, k), Moment(p, held, c, k));
      Stores(p, true, held, c, k, w);
      assert held[w := Idle] == Crowd(workers, i, workers);
      LeadsOn(p, true, start, Moment(p, held, c, k), Moment(p, Crowd(workers, i, workers), Saturated(k + 1), k + 1));
    }
  }

  lemma Overshoot(p: Policy, workers: nat)
    requires p.window > 0 && workers >= 1 && 1 <= p.maxFailures < TWO_32
    ensures var n := p.maxFailures - 1 + workers;
            Leads(p, true, Start(workers), Moment(p, Crowd(workers, workers, workers), Saturated(n), n))
  {
    var m := p.maxFailures - 1;
    var a, b := Moment(p, Crowd(workers, 0, 0), m, m), Moment(p, Crowd(workers, 0, workers), m, m);
    assert Start(workers) == Moment(p, Crowd(workers, 0, 0), 0, 0);
    OneByOne(p, workers, m);
    AllAdmitted(p, workers, workers, m);
    LeadsOn(p, true, Start(workers), a, b);
    AllFail(p, workers, workers, m);
    LeadsOn(p, true, Start(workers), b,
            Moment(p, Crowd(workers, workers, workers), Saturated(m + workers), m + workers));
  }

  /** Where no write loses a count, the longest chain passes the limit by exactly one failure for each worker
      after the first. */
  lemma CarefulChainIff(p: Policy, workers: nat, b: nat)
    requires 1 <= p.maxFailures < TWO_32 && p.window > 0 && workers >= 1
    ensures AllWithin(p, true, workers, b) <==> p.maxFailures + workers - 1 <= b
  {
    var start := Start(workers);
    if p.maxFailures + workers - 1 <= b {
      forall s | Leads(p, true, start, s) ensures Chain(s, p) <= b {
        var events :| Reaches(p, true, start, events, s);
        RunGuarded(p, start, events, s);
      }
    } else {
      Overshoot(p, workers);
      FailsChain(p.maxFailures - 1 + workers, p.window);
    }
  }
}
