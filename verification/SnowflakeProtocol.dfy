/** The two lock-free allocators of crates/core/src/id.rs as interleaved thread steps. Every load,
    and every failed exchange, may observe any value the word has ever held (relaxed ordering), an
    exchange may fail for no reason, and each clock reading is arbitrary. */
module SnowflakeProtocol {
  import opened Common
  import opened Bytes
  import opened Snowflake

  // ----- IdGenerator::generate -----

  datatype Thread = Clocked(now: u64) | Looping(now: u64, previous: u64)

  /** One successful exchange: the clock reading behind it, the word it installed, the id returned. */
  datatype Grant = Grant(now: u64, word: u64, id: u64)

  /** `history` lists the values the word has held, newest last; grants are in exchange order. */
  datatype State = State(node: nat, history: seq<u64>, threads: map<nat, Thread>, grants: seq<Grant>)

  datatype Step =
    | ReadClock(t: nat, now: u64)
    | Load(t: nat, seen: u64)
    | ExchangeFails(t: nat, seen: u64)
    | ExchangeSucceeds(t: nat)

  function Init(node: nat): State
  {
    State(node % NODES, [0], map[], [])
  }

  function Word(s: State): u64
    requires s.history != []
  {
    s.history[|s.history| - 1]
  }

  predicate Enabled(s: State, step: Step)
  {
    && s.history != [] && s.node < NODES
    && match step
       case ReadClock(t, _) => t !in s.threads
       case Load(t, seen) => t in s.threads && s.threads[t].Clocked? && seen in s.history
       case ExchangeFails(t, seen) => t in s.threads && s.threads[t].Looping? && seen in s.history
       case ExchangeSucceeds(t) => t in s.threads && s.threads[t].Looping? && s.threads[t].previous == Word(s)
  }

  function Take(s: State, step: Step): State
    requires Enabled(s, step)
  {
    match step
    case ReadClock(t, now) => s.(threads := s.threads[t := Clocked(now)])
    case Load(t, seen) => s.(threads := s.threads[t := Looping(s.threads[t].now, seen)])
    case ExchangeFails(t, seen) => s.(threads := s.threads[t := Looping(s.threads[t].now, seen)])
    case ExchangeSucceeds(t) =>
      var Looping(now, previous) := s.threads[t];
      var word := Candidate(previous, now);
      var id := Pack(NextMs(previous, now), s.node, NextSeq(previous, now));
      s.(history := s.history + [word], threads := s.threads - {t}, grants := s.grants + [Grant(now, word, id)])
  }

  predicate IsRun(s: State, steps: seq<Step>)
    decreases |steps|
  {
    steps == [] || (Enabled(s, steps[0]) && IsRun(Take(s, steps[0]), steps[1..]))
  }

  function RunFrom(s: State, steps: seq<Step>): State
    requires IsRun(s, steps)
    decreases |steps|
  {
    if steps == [] then s else RunFrom(Take(s, steps[0]), steps[1..])
  }

  /** Every id carries the generator's node, whatever wrapped. */
  predicate GrantsMatch(s: State)
  {
    && s.node < NODES
    && |s.history| == |s.grants| + 1
    && (forall i | 0 <= i < |s.grants| ::
          && s.grants[i].word == s.history[i + 1]
          && s.grants[i].id == IdOf(s.grants[i].word, s.node))
  }

  lemma IdOfCandidate(previous: u64, now: u64, node: nat)
    requires node < NODES
    ensures Pack(NextMs(previous, now), node, NextSeq(previous, now)) == IdOf(Candidate(previous, now), node)
  {
    var ms, sequence := NextMs(previous, now), NextSeq(previous, now);
    WordParts(ms % PACKED_MS, sequence);
    MsWithinMs(ms);
  }

  lemma StepMatches(s: State, step: Step)
    requires GrantsMatch(s) && Enabled(s, step)
    ensures GrantsMatch(Take(s, step))
  {
    if step.ExchangeSucceeds? {
      IdOfCandidate(s.threads[step.t].previous, s.threads[step.t].now, s.node);
    }
  }

  lemma {:induction false} RunMatches(s: State, steps: seq<Step>)
    requires GrantsMatch(s) && IsRun(s, steps)
    ensures GrantsMatch(RunFrom(s, steps)) && RunFrom(s, steps).node == s.node
    decreases |steps|
  {
    if steps != [] {
      StepMatches(s, steps[0]);
      RunMatches(Take(s, steps[0]), steps[1..]);
    }
  }

  /** Generators whose node numbers differ modulo 1024 never return the same id, in any runs, with
      any clocks. */
  lemma NodesDisjoint(node: nat, steps: seq<Step>, node': nat, steps': seq<Step>)
    requires node % NODES != node' % NODES
    requires IsRun(Init(node), steps) && IsRun(Init(node'), steps')
    ensures var a, b := RunFrom(Init(node), steps), RunFrom(Init(node'), steps');
            forall g, h | g in a.grants && h in b.grants :: g.id != h.id
  {
    var a, b := RunFrom(Init(node), steps), RunFrom(Init(node'), steps');
    RunMatches(Init(node), steps);
    RunMatches(Init(node'), steps');
    forall g, h | g in a.grants && h in b.grants ensures g.id != h.id {
      NodesNeverCollide(g.word, a.node, h.word, b.node);
    }
  }

  /** In every run of one generator, with any clocks, two ids are equal exactly when the words they were
      drawn from agree modulo 2^54. */
  lemma RunCollisions(node: nat, steps: seq<Step>, i: nat, j: nat)
    requires IsRun(Init(node), steps)
    requires i < |RunFrom(Init(node), steps).grants| && j < |RunFrom(Init(node), steps).grants|
    ensures var s := RunFrom(Init(node), steps);
            |s.history| == |s.grants| + 1 &&
            (s.grants[i].id == s.grants[j].id <==> s.history[i + 1] % ID_SPAN == s.history[j + 1] % ID_SPAN)
  {
    var s := RunFrom(Init(node), steps);
    RunMatches(Init(node), steps);
    SameNodeCollision(s.grants[i].word, s.grants[j].word, s.node);
  }

  // ----- Order and uniqueness within one generator -----

  predicate ClockBound(steps: seq<Step>, latest: nat)
  {
    forall step | step in steps && step.ReadClock? :: step.now <= latest
  }

  /** With clock readings up to `latest`, n grants fit: no id has wrapped. */
  predicate Fits(latest: nat, n: nat)
  {
    latest * SEQUENCES + n < ID_SPAN
  }

  predicate ThreadsBound(s: State, latest: nat)
  {
    forall t | t in s.threads :: s.threads[t].now <= latest
  }

  /** Each exchange installs the later of the successor and the clock, and the word stays small. */
  predicate GrantsAdvance(s: State, latest: nat)
    requires GrantsMatch(s)
  {
    && Word(s) <= latest * SEQUENCES + |s.grants|
    && (forall i | 0 <= i < |s.grants| ::
          s.grants[i].word == Later(s.history[i], s.grants[i].now))
  }

  predicate Good(s: State, latest: nat)
  {
    && GrantsMatch(s) && ThreadsBound(s, latest)
    && (Fits(latest, |s.grants|) ==> GrantsAdvance(s, latest))
  }

  lemma StepAdvances(s: State, step: Step, latest: nat)
    requires Good(s, latest) && Enabled(s, step)
    requires step.ReadClock? ==> step.now <= latest
    ensures Good(Take(s, step), latest)
  {
    StepMatches(s, step);
    if step.ExchangeSucceeds? && Fits(latest, |s.grants| + 1) {
      var now := s.threads[step.t].now;
      assert now * SEQUENCES <= latest * SEQUENCES;
      CandidateIsLater(Word(s), now);
    }
  }

  lemma {:induction false} RunAdvances(s: State, steps: seq<Step>, latest: nat)
    requires Good(s, latest) && IsRun(s, steps) && ClockBound(steps, latest)
    ensures Good(RunFrom(s, steps), latest)
    decreases |steps|
  {
    if steps != [] {
      assert steps[0] in steps;
      StepAdvances(s, steps[0], latest);
      RunAdvances(Take(s, steps[0]), steps[1..], latest);
    }
  }

  lemma {:induction false} WordsAscend(s: State, latest: nat, i: nat, j: nat)
    requires GrantsMatch(s) && GrantsAdvance(s, latest) && i < j < |s.grants|
    ensures s.grants[i].word < s.grants[j].word
    decreases j
  {
    NextWord(s, latest, j);
    if j > i + 1 {
      WordsAscend(s, latest, i, j - 1);
    }
  }

  lemma NextWord(s: State, latest: nat, j: nat)
    requires GrantsMatch(s) && GrantsAdvance(s, latest) && 0 < j < |s.grants|
    ensures s.grants[j - 1].word < s.grants[j].word
  {
    assert s.grants[j - 1].word == s.history[j];
  }

  lemma {:induction false} WordsBelowLast(s: State, latest: nat, i: nat)
    requires GrantsMatch(s) && GrantsAdvance(s, latest) && i < |s.grants|
    ensures s.grants[i].word <= Word(s)
  {
    if i < |s.grants| - 1 {
      WordsAscend(s, latest, i, |s.grants| - 1);
    }
  }

  /** The timestamp of the i-th id. */
  predicate Stamped(s: State, i: nat, latest: nat)
    requires i < |s.grants| && |s.history| == |s.grants| + 1
  {
    var at, now := TimestampOf(s.grants[i].id), s.grants[i].now;
    && at == s.history[i + 1] / SEQUENCES / 1000 + EPOCH_SECONDS
    && at >= now / 1000 + EPOCH_SECONDS
    && (now > s.history[i] / SEQUENCES ==> at == now / 1000 + EPOCH_SECONDS)
    && at <= (latest * SEQUENCES + |s.grants|) / SEQUENCES / 1000 + EPOCH_SECONDS
  }

  lemma GrantStamped(s: State, latest: nat, i: nat)
    requires GrantsMatch(s) && GrantsAdvance(s, latest) && Fits(latest, |s.grants|) && i < |s.grants|
    ensures Stamped(s, i, latest)
  {
    var word, now := s.grants[i].word, s.grants[i].now;
    WordsBelowLast(s, latest, i);
    TimestampExact(word, s.node);
    TimestampAtLeast(word, s.node, now);
    assert now > s.history[i] / SEQUENCES ==> word == now * SEQUENCES;
    NotLater(word, latest * SEQUENCES + |s.grants|);
  }

  lemma NotLater(word: nat, bound: nat)
    requires word <= bound
    ensures word / SEQUENCES / 1000 <= bound / SEQUENCES / 1000
  {
  }

  /** For every interleaving, with spurious failures, stale loads and a clock that may run backwards:
      ids come out strictly increasing in exchange order, hence all distinct; each word is the later
      of its predecessor's successor and the clock; after n ids the word is at most T * 4096 + n;
      and an id's timestamp is its word's, hence not before the clock reading used for it, exactly that reading
      where the clock had moved on, and never past the latest reading but for one millisecond per 4096 ids. */
  lemma GenerateIsMonotone(node: nat, steps: seq<Step>, latest: nat)
    requires IsRun(Init(node), steps) && ClockBound(steps, latest)
    requires Fits(latest, |RunFrom(Init(node), steps).grants|)
    ensures var s := RunFrom(Init(node), steps);
            && |s.history| == |s.grants| + 1
            && Word(s) <= latest * SEQUENCES + |s.grants|
            && (forall i, j | 0 <= i < j < |s.grants| :: s.grants[i].id < s.grants[j].id)
            && (forall i | 0 <= i < |s.grants| ::
                  && s.history[i + 1] == Later(s.history[i], s.grants[i].now)
                  && Stamped(s, i, latest))
  {
    var s := RunFrom(Init(node), steps);
    RunAdvances(Init(node), steps, latest);
    forall i | 0 <= i < |s.grants| ensures Stamped(s, i, latest) {
      GrantStamped(s, latest, i);
    }
    forall i, j | 0 <= i < j < |s.grants| ensures s.grants[i].id < s.grants[j].id {
      IdsAscend(s, latest, i, j);
    }
  }

  lemma IdsAscend(s: State, latest: nat, i: nat, j: nat)
    requires GrantsMatch(s) && GrantsAdvance(s, latest) && Fits(latest, |s.grants|) && i < j < |s.grants|
    ensures s.grants[i].id < s.grants[j].id
  {
    WordsAscend(s, latest, i, j);
    WordsBelowLast(s, latest, j);
    IdOrder(s.grants[i].word, s.grants[j].word, s.node);
  }

  /** Past 2^42 milliseconds the bound is needed: two readings 2^42 apart return the same id. */
  const WRAPPING_RUN: seq<Step> :=
    [ReadClock(0, 1), Load(0, 0), ExchangeSucceeds(0),
     ReadClock(0, ID_MS + 1), Load(0, SEQUENCES), ExchangeSucceeds(0)]

  lemma ClockWrapRepeatsAnId(node: nat)
    ensures IsRun(Init(node), WRAPPING_RUN)
    ensures var s := RunFrom(Init(node), WRAPPING_RUN);
            |s.grants| == 2 && s.grants[0].id == s.grants[1].id
  {
    var s0 := Init(node);
    var s1 := Take(s0, WRAPPING_RUN[0]);
    var s2 := Take(s1, WRAPPING_RUN[1]);
    var s3 := Take(s2, WRAPPING_RUN[2]);
    assert Word(s3) == SEQUENCES;
    var s4 := Take(s3, WRAPPING_RUN[3]);
    var s5 := Take(s4, WRAPPING_RUN[4]);
    var s6 := Take(s5, WRAPPING_RUN[5]);
    UnrollSix(s0, WRAPPING_RUN);
    RunMatches(s0, WRAPPING_RUN);
    SameNodeCollision(s6.grants[0].word, s6.grants[1].word, s6.node);
  }

  lemma UnrollSix(s: State, r: seq<Step>)
    requires |r| == 6
    requires Enabled(s, r[0])
    requires var a := Take(s, r[0]); Enabled(a, r[1])
    requires var b := Take(Take(s, r[0]), r[1]); Enabled(b, r[2])
    requires var c := Take(Take(Take(s, r[0]), r[1]), r[2]); Enabled(c, r[3])
    requires var d := Take(Take(Take(Take(s, r[0]), r[1]), r[2]), r[3]); Enabled(d, r[4])
    requires var e := Take(Take(Take(Take(Take(s, r[0]), r[1]), r[2]), r[3]), r[4]); Enabled(e, r[5])
    ensures IsRun(s, r)
    ensures RunFrom(s, r) == Take(Take(Take(Take(Take(Take(s, r[0]), r[1]), r[2]), r[3]), r[4]), r[5])
  {
    var a := Take(s, r[0]);
    var b := Take(a, r[1]);
    var c := Take(b, r[2]);
    var d := Take(c, r[3]);
    var e := Take(d, r[4]);
    assert r[1..][1..] == r[2..] && r[2..][1..] == r[3..] && r[3..][1..] == r[4..] && r[4..][1..] == r[5..];
    assert r[5..][1..] == [];
    assert IsRun(e, r[5..]) && IsRun(d, r[4..]) && IsRun(c, r[3..]) && IsRun(b, r[2..]) && IsRun(a, r[1..]);
    assert RunFrom(e, r[5..]) == Take(e, r[5]);
    assert RunFrom(c, r[3..]) == RunFrom(d, r[4..]) == RunFrom(e, r[5..]);
    assert RunFrom(a, r[1..]) == RunFrom(b, r[2..]) == RunFrom(c, r[3..]);
  }

  // ----- DocumentIdAllocator::next -----

  const U32_MAX: nat := TWO_32 - 1

  datatype Allocator = Allocator(history: seq<u32>, threads: map<nat, u32>, granted: seq<u32>, refused: nat)

  datatype AllocStep =
    | LoadNext(t: nat, seen: u32)
    | SwapFails(t: nat, seen: u32)
    | SwapSucceeds(t: nat)
    | GiveUp(t: nat)

  function FromHighest(highest: Option<u32>): Allocator
  {
    var start: u32 := if highest.None? then 0 else if highest.value == U32_MAX then U32_MAX else highest.value + 1;
    Allocator([start], map[], [], 0)
  }

  predicate CanStep(a: Allocator, step: AllocStep)
  {
    && a.history != []
    && match step
       case LoadNext(t, seen) => t !in a.threads && seen in a.history
       case SwapFails(t, seen) => t in a.threads && a.threads[t] != U32_MAX && seen in a.history
       case SwapSucceeds(t) =>
         t in a.threads && a.threads[t] != U32_MAX && a.threads[t] == a.history[|a.history| - 1]
       case GiveUp(t) => t in a.threads && a.threads[t] == U32_MAX
  }

  function AllocTake(a: Allocator, step: AllocStep): Allocator
    requires CanStep(a, step)
  {
    match step
    case LoadNext(t, seen) => a.(threads := a.threads[t := seen])
    case SwapFails(t, seen) => a.(threads := a.threads[t := seen])
    case SwapSucceeds(t) =>
      a.(history := a.history + [a.threads[t] + 1], threads := a.threads - {t}, granted := a.granted + [a.threads[t]])
    case GiveUp(t) => a.(threads := a.threads - {t}, refused := a.refused + 1)
  }

  ghost predicate AllocRun(a: Allocator, steps: seq<AllocStep>, b: Allocator)
    decreases |steps|
  {
    if steps == [] then a == b
    else CanStep(a, steps[0]) && AllocRun(AllocTake(a, steps[0]), steps[1..], b)
  }

  predicate Consecutive(a: Allocator, start: u32)
  {
    && |a.history| == |a.granted| + 1
    && start + |a.granted| <= U32_MAX
    && (forall i | 0 <= i < |a.history| :: a.history[i] == start + i)
    && (forall i | 0 <= i < |a.granted| :: a.granted[i] == start + i)
    && (forall t | t in a.threads :: a.threads[t] in a.history)
    && (a.refused > 0 ==> start + |a.granted| == U32_MAX)
  }

  lemma {:induction false} AllocRunConsecutive(a: Allocator, steps: seq<AllocStep>, b: Allocator, start: u32)
    requires Consecutive(a, start) && AllocRun(a, steps, b)
    ensures Consecutive(b, start)
    decreases |steps|
  {
    if steps != [] {
      AllocStepConsecutive(a, steps[0], start);
      AllocRunConsecutive(AllocTake(a, steps[0]), steps[1..], b, start);
    }
  }

  lemma AllocStepConsecutive(a: Allocator, step: AllocStep, start: u32)
    requires Consecutive(a, start) && CanStep(a, step)
    ensures Consecutive(AllocTake(a, step), start)
  {
    var b := AllocTake(a, step);
    if step.SwapSucceeds? {
      assert forall x | x in a.history :: x in b.history;
    }
    if step.GiveUp? {
      var i :| 0 <= i < |a.history| && a.history[i] == U32_MAX;
      assert i == |a.history| - 1;
    }
  }

  /** Resuming past the highest id, every interleaving hands out consecutive ids just above it, each
      once, and refuses only when every id below u32::MAX has been handed out. */
  lemma AllocatorIsExact(highest: Option<u32>, steps: seq<AllocStep>, b: Allocator)
    requires AllocRun(FromHighest(highest), steps, b)
    ensures forall i | 0 <= i < |b.granted| :: b.granted[i] == FromHighest(highest).history[0] + i
    ensures highest.Some? ==> forall id | id in b.granted :: id > highest.value
    ensures b.refused > 0 ==> FromHighest(highest).history[0] + |b.granted| == U32_MAX
  {
    var start := FromHighest(highest).history[0];
    AllocRunConsecutive(FromHighest(highest), steps, b, start);
  }
}
