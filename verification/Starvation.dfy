/**
 * How long a normal process can wait for the CPU while no real-time process
 * outranks the normal ones.
 *
 * A tick ages everyone READY except the process it expects to run next.  That
 * expectation is formed before the others age, so another process can climb past it
 * on the same tick; the expected process then neither runs nor ages.  It is passed
 * over.  Here: exactly when that happens, and the bounds that hold because of it.
 * How often it can happen is the subject of Starved (without end), FewRivals (not, with
 * at most ten rivals) and TicksAlone (not by ticks alone, with at most twenty).
 */
module Starvation {
  import opened Words
  import opened Priority
  import opened PriorityRuns

  /** A timer tick, a voluntary hand-over, or anything else that happens to the
      other processes: waking, sleeping, stopping, exiting, being created, changing
      nice value or policy, or a new power profile. */
  datatype Action = TickStep | YieldStep | OtherStep

  /** Slot i holds a normal process of the given level that is READY. */
  ghost predicate Waits(s: Sys, i: nat, level: Level) {
    && 0 <= s.current < |s.table| && i < |s.table| && i != s.current
    && var p := s.table[i];
      p.state == Ready && (p.policy == SchedOther || p.policy == SchedBatch) && p.level == level && level >= 1
  }

  /** Real-time processes sleep, are throttled, or do not exist. */
  ghost predicate NoRealtimeRank(s: Sys) {
    forall j :: 0 <= j < |s.table| && Runnable(s.table[j]) ==> Rank(s.table[j], s.throttle.on, true) <= RANK_TOP
  }

  ghost predicate OtherChange(s: Sys, s': Sys, i: nat)
    requires 0 <= s.current < |s.table| && i < |s.table|
  {
    && |s'.table| == |s.table| && s'.current == s.current && s'.throttle == s.throttle
    && s'.table[i] == s.table[i] && s'.table[s.current].sliceLeft == s.table[s.current].sliceLeft
  }

  ghost predicate Step(s: Sys, a: Action, s': Sys, hz: Hz, i: nat)
    requires 0 <= s.current < |s.table| && i < |s.table|
  {
    match a
    case TickStep => s' == Tick(s, hz)
    case YieldStep => s' == Yield(s)
    case OtherStep => OtherChange(s, s', i)
  }

  /** A run during which slot i waits all the time and never gets the CPU. */
  ghost predicate WaitingRun(states: seq<Sys>, acts: seq<Action>, hz: Hz, i: nat, level: Level) {
    && |states| == |acts| + 1
    && (forall k :: 0 <= k < |states| ==>
         SysOk(states[k], hz) && Waits(states[k], i, level) && NoRealtimeRank(states[k]) &&
         |states[k].table| == |states[0].table|)
    && (forall k :: 0 <= k < |acts| ==> Step(states[k], acts[k], states[k + 1], hz, i))
  }

  /** Slot i was expected to run after this tick although it had not reached the
      top level: if it then does not run, it did not age either. */
  ghost predicate PassedOver(s: Sys, a: Action, hz: Hz, i: nat)
    requires CurrentOk(s) && i < |s.table|
  {
    a == TickStep && Predicted(s, hz) == i && TicksToTop(s.table[i]) > 0
  }

  // ---------- How long the waiting can still last ----------

  /** Ticks of waiting until the top level. */
  function TicksToTop(p: Process): nat {
    var need := (LEVEL_MAX - p.level) * AGING_TICKS - p.waited;
    if need > 0 then need else 0
  }

  function MaxWait(n: nat): nat {
    (LEVEL_MAX - 1) * AGING_TICKS + RR_SLICE_TICKS * n
  }

  /** First climb to the top level; from there on, every hand-over brings the
      cyclic scan closer, and a turn lasts at most 10 ticks. */
  function Left(s: Sys, i: nat): (l: int)
    requires 0 <= s.current < |s.table| && i < |s.table| && i != s.current
    requires forall j :: 0 <= j < |s.table| ==> s.table[j].sliceLeft <= RR_SLICE_TICKS
    ensures 1 <= l && (s.table[i].level >= 1 ==> l <= MaxWait(|s.table|))
  {
    var n := |s.table|;
    var need := TicksToTop(s.table[i]);
    if need > 0 then need + RR_SLICE_TICKS * n
    else
      var slice := s.table[s.current].sliceLeft;
      RR_SLICE_TICKS * (Dist(n, s.current, i) - 1) + if slice == 0 then 1 else slice
  }

  /** The counter of waited ticks has 32 bits: if it wraps, the climb starts over, once. */
  function Budget(s: Sys, i: nat): (b: int)
    requires 0 <= s.current < |s.table| && i < |s.table| && i != s.current
    requires forall j :: 0 <= j < |s.table| ==> s.table[j].sliceLeft <= RR_SLICE_TICKS
    ensures 1 <= b
  {
    var l := Left(s, i);
    l + if s.table[i].waited + l >= WORD_SIZE then MaxWait(|s.table|) else 0
  }

  lemma TopLevel(p: Process)
    requires p.level >= 1
    ensures TicksToTop(p) == 0 <==> Aged(p.level, p.waited) == LEVEL_MAX
  {
  }

  /** At the top level nobody outranks slot i, so whoever is picked instead is
      strictly closer to it. */
  lemma PickComesCloser(s: Sys, i: nat, level: Level)
    requires Waits(s, i, level) && TicksToTop(s.table[i]) == 0
    requires NoRealtimeRank(s)
    ensures var next := Choice(s.table, s.throttle.on, s.current);
      next != -1 && next != s.current && (next == i || Dist(|s.table|, next, i) < Dist(|s.table|, s.current, i))
  {
    TopLevel(s.table[i]);
    var next := Choice(s.table, s.throttle.on, s.current);
    assert Dist(|s.table|, s.current, i) <= |s.table|;
    assert Beats(s.table, s.throttle.on, s.current, next, i);
  }

  /** What a hand-over does to slot i and to the ranks. */
  lemma HandOver(s: Sys, hz: Hz, i: nat, level: Level)
    requires SysOk(s, hz) && Waits(s, i, level) && NoRealtimeRank(Yield(s))
    ensures NoRealtimeRank(s)
    ensures var s' := Yield(s); s'.current != i ==> s'.table[i] == s.table[i]
    ensures var s' := Yield(s); s'.current == Choice(s.table, s.throttle.on, s.current)
  {
    var s' := Yield(s);
    assert Dist(|s.table|, s.current, i) <= |s.table|;
    forall j | 0 <= j < |s.table| && Runnable(s.table[j])
      ensures Rank(s.table[j], s.throttle.on, true) <= RANK_TOP
    {
      assert s'.table[j].policy == s.table[j].policy && Runnable(s'.table[j]);
      assert Rank(s'.table[j], s.throttle.on, true) <= RANK_TOP;
    }
  }

  lemma YieldSpends(s: Sys, hz: Hz, i: nat, level: Level)
    requires SysOk(s, hz) && Waits(s, i, level)
    requires var s' := Yield(s); SysOk(s', hz) && Waits(s', i, level) && NoRealtimeRank(s')
    ensures Yield(s).table[i] == s.table[i] && Left(Yield(s), i) <= Left(s, i)
    ensures TicksToTop(s.table[i]) == 0 ==> Left(Yield(s), i) <= Left(s, i) - 1
  {
    HandOver(s, hz, i, level);
    if TicksToTop(s.table[i]) == 0 {
      PickComesCloser(s, i, level);
    }
  }

  /** The tick itself, before any hand-over. */
  lemma TickAges(s: Sys, hz: Hz, i: nat, level: Level)
    requires SysOk(s, hz) && Waits(s, i, level)
    ensures var (s1, switch) := TickOnly(s, hz);
      && SysOk(s1, hz) && Waits(s1, i, level)
      && s1.table[i] == (if Predicted(s, hz) == i then s.table[i] else Wait(s.table[i]))
      && s1.table[s.current].sliceLeft <= s.table[s.current].sliceLeft
      && (!switch && NoRealtimeRank(s1) ==> s1.table[s.current].sliceLeft == s.table[s.current].sliceLeft - 1 > 0)
  {
    StepsKeepOk(s, hz);
    var (s1, switch) := TickOnly(s, hz);
    if !switch && NoRealtimeRank(s1) {
      var p := s.table[s.current];
      assert Runnable(s1.table[s.current]) && Rank(s1.table[s.current], s1.throttle.on, true) <= RANK_TOP;
    }
  }

  /** What the ageing and the shorter slice leave, before any hand-over. */
  lemma AgeingSpends(s: Sys, s1: Sys, hz: Hz, i: nat, level: Level, expected: bool)
    requires SysOk(s, hz) && Waits(s, i, level) && (Inc(s.table[i].waited) != 0 || level == LEVEL_MAX)
    requires SysOk(s1, hz) && Waits(s1, i, level) && |s1.table| == |s.table| && s1.current == s.current
    requires s1.table[i] == if expected then s.table[i] else Wait(s.table[i])
    requires s1.table[s.current].sliceLeft <= s.table[s.current].sliceLeft
    ensures Left(s1, i) <= Left(s, i)
    ensures TicksToTop(s1.table[i]) > 0 && !expected ==> Left(s1, i) <= Left(s, i) - 1
    ensures
      0 < s1.table[s.current].sliceLeft < s.table[s.current].sliceLeft && (!expected || TicksToTop(s.table[i]) == 0) ==>
        Left(s1, i) <= Left(s, i) - 1
  {
  }

  /** A tick on which slot i does not get the CPU uses up some of what is left,
      unless it was passed over. */
  lemma TickSpends(s: Sys, s': Sys, hz: Hz, i: nat, level: Level)
    requires SysOk(s, hz) && Waits(s, i, level) && (Inc(s.table[i].waited) != 0 || level == LEVEL_MAX)
    requires s' == Tick(s, hz) && SysOk(s', hz) && Waits(s', i, level) && NoRealtimeRank(s')
    ensures s'.table[i] == (if Predicted(s, hz) == i then s.table[i] else Wait(s.table[i]))
    ensures Left(s', i) <= Left(s, i) - if PassedOver(s, TickStep, hz, i) then 0 else 1
  {
    TickAges(s, hz, i, level);
    var (s1, switch) := TickOnly(s, hz);
    AgeingSpends(s, s1, hz, i, level, Predicted(s, hz) == i);
    if switch {
      YieldSpends(s1, hz, i, level);
    }
  }

  lemma TickBudget(s: Sys, s': Sys, hz: Hz, i: nat, level: Level)
    requires SysOk(s, hz) && Waits(s, i, level) && MaxWait(|s.table|) < WORD_SIZE
    requires s' == Tick(s, hz) && SysOk(s', hz) && Waits(s', i, level) && NoRealtimeRank(s')
    ensures Budget(s', i) <= Budget(s, i) - if PassedOver(s, TickStep, hz, i) then 0 else 1
  {
    if Inc(s.table[i].waited) != 0 {
      TickSpends(s, s', hz, i, level);
    } else {
      WrapBudget(s, s', hz, i, level);
    }
  }

  lemma WrapBudget(s: Sys, s': Sys, hz: Hz, i: nat, level: Level)
    requires SysOk(s, hz) && Waits(s, i, level) && MaxWait(|s.table|) < WORD_SIZE && Inc(s.table[i].waited) == 0
    requires s' == Tick(s, hz) && SysOk(s', hz) && Waits(s', i, level) && NoRealtimeRank(s')
    ensures Budget(s', i) <= Budget(s, i) - 1
  {
    TickAges(s, hz, i, level);
    var (s1, switch) := TickOnly(s, hz);
    if switch {
      HandOver(s1, hz, i, level);
      YieldSpends(s1, hz, i, level);
    }
  }

  lemma StepBudget(s: Sys, a: Action, s': Sys, hz: Hz, i: nat, level: Level)
    requires SysOk(s, hz) && Waits(s, i, level) && MaxWait(|s.table|) < WORD_SIZE
    requires SysOk(s', hz) && Waits(s', i, level) && NoRealtimeRank(s')
    requires Step(s, a, s', hz, i)
    ensures Budget(s', i) <= Budget(s, i) - if a == TickStep && !PassedOver(s, a, hz, i) then 1 else 0
  {
    match a
    case TickStep => TickBudget(s, s', hz, i, level);
    case YieldStep => YieldSpends(s, hz, i, level);
    case OtherStep =>
  }

  // ---------- Whole runs ----------

  function Ticks(acts: seq<Action>): nat {
    if acts == [] then 0 else (if acts[0] == TickStep then 1 else 0) + Ticks(acts[1..])
  }

  ghost function TimesPassedOver(states: seq<Sys>, acts: seq<Action>, hz: Hz, i: nat): nat
    requires |states| == |acts| + 1 && forall k :: 0 <= k < |states| ==> CurrentOk(states[k]) && i < |states[k].table|
    decreases |acts|
  {
    if acts == [] then 0
    else (if PassedOver(states[0], acts[0], hz, i) then 1 else 0) + TimesPassedOver(states[1..], acts[1..], hz, i)
  }

  lemma WaitingTail(states: seq<Sys>, acts: seq<Action>, hz: Hz, i: nat, level: Level)
    requires WaitingRun(states, acts, hz, i, level) && acts != []
    ensures WaitingRun(states[1..], acts[1..], hz, i, level)
  {
    var states', acts' := states[1..], acts[1..];
    forall k | 0 <= k < |acts'| ensures Step(states'[k], acts'[k], states'[k + 1], hz, i) {
      assert states'[k] == states[k + 1] && acts'[k] == acts[k + 1] && states'[k + 1] == states[(k + 1) + 1];
    }
  }

  lemma {:induction false} RunBudget(states: seq<Sys>, acts: seq<Action>, hz: Hz, i: nat, level: Level)
    requires WaitingRun(states, acts, hz, i, level) && MaxWait(|states[0].table|) < WORD_SIZE
    ensures Ticks(acts) < Budget(states[0], i) + TimesPassedOver(states, acts, hz, i)
    decreases |acts|
  {
    if acts != [] {
      WaitingTail(states, acts, hz, i, level);
      RunBudget(states[1..], acts[1..], hz, i, level);
      assert states[0 + 1] == states[1..][0];
      StepBudget(states[0], acts[0], states[1], hz, i, level);
    }
  }

  /** While a normal process waits without getting the CPU, fewer ticks pass than the
      climb to the top level takes plus ten for every slot of the table, not counting
      the ticks on which it was passed over: whatever the other processes do.  (If the
      32-bit counter wraps during the wait, twice that.) */
  lemma WaitBound(states: seq<Sys>, acts: seq<Action>, hz: Hz, i: nat, level: Level)
    requires WaitingRun(states, acts, hz, i, level) && MaxWait(|states[0].table|) < WORD_SIZE
    ensures var n, p := |states[0].table|, states[0].table[i];
      && Ticks(acts) < 2 * MaxWait(n) + TimesPassedOver(states, acts, hz, i)
      && (p.waited + MaxWait(n) < WORD_SIZE ==>
           Ticks(acts) < TicksToTop(p) + RR_SLICE_TICKS * n + TimesPassedOver(states, acts, hz, i))
  {
    RunBudget(states, acts, hz, i, level);
  }

  // ---------- At the top level: bounded in hand-overs ----------

  predicate HandsOver(before: Sys, after: Sys) {
    before.current != after.current
  }

  ghost function HandOvers(states: seq<Sys>): nat {
    if |states| <= 1 then 0 else (if HandsOver(states[0], states[1]) then 1 else 0) + HandOvers(states[1..])
  }

  lemma StepCloser(s: Sys, a: Action, s': Sys, hz: Hz, i: nat, level: Level)
    requires SysOk(s, hz) && Waits(s, i, level) && Step(s, a, s', hz, i)
    requires SysOk(s', hz) && Waits(s', i, level) && NoRealtimeRank(s')
    requires TicksToTop(s.table[i]) == 0 && TicksToTop(s'.table[i]) == 0
    ensures Dist(|s.table|, s'.current, i) <= Dist(|s.table|, s.current, i) - if HandsOver(s, s') then 1 else 0
  {
    match a
    case TickStep =>
      TickAges(s, hz, i, level);
      var (s1, switch) := TickOnly(s, hz);
      if switch {
        HandOver(s1, hz, i, level);
        PickComesCloser(s1, i, level);
      }
    case YieldStep =>
      HandOver(s, hz, i, level);
      PickComesCloser(s, i, level);
    case OtherStep =>
  }

  /** Once it has reached the top level, the CPU changes hands fewer times than
      there are slots before the waiting process gets it. */
  lemma {:induction false} PickedWithinOneRound(states: seq<Sys>, acts: seq<Action>, hz: Hz, i: nat, level: Level)
    requires WaitingRun(states, acts, hz, i, level)
    requires forall k :: 0 <= k < |states| ==> Aged(level, states[k].table[i].waited) == LEVEL_MAX
    ensures HandOvers(states) < Dist(|states[0].table|, states[0].current, i) < |states[0].table|
    decreases |acts|
  {
    TopLevel(states[0].table[i]);
    if acts != [] {
      WaitingTail(states, acts, hz, i, level);
      PickedWithinOneRound(states[1..], acts[1..], hz, i, level);
      assert states[0 + 1] == states[1..][0];
      TopLevel(states[1].table[i]);
      StepCloser(states[0], acts[0], states[1], hz, i, level);
    }
  }

  // ---------- Exactly when it is passed over ----------

  /** The process gains a level if it waits one tick more. */
  predicate Climbs(p: Process, throttled: bool) {
    && !(IsRealtime(p.policy) && !throttled) && p.policy != SchedIdle
    && Aged(p.level, Inc(p.waited)) > Aged(p.level, p.waited)
  }

  /** Slot j climbs on this tick, and then ranks before slot i: higher, or as high and
      nearer in the scan. */
  ghost predicate Overtakes(s: Sys, throttled: bool, i: nat, j: nat)
    requires 0 <= s.current < |s.table| && i < |s.table|
  {
    && j < |s.table| && j != i && j != s.current && s.table[j].state == Ready && Climbs(s.table[j], throttled)
    && var mine, its := Rank(s.table[i], throttled, true), Rank(Wait(s.table[j]), throttled, true);
      its > mine || (its == mine && Dist(|s.table|, s.current, j) < Dist(|s.table|, s.current, i))
  }

  /** The throttle the tick leaves behind, which decides the ranks on it. */
  ghost function ThrottledAfter(s: Sys, hz: Hz): bool
    requires CurrentOk(s)
  {
    TickOnly(s, hz).0.throttle.on
  }

  /** A tick of waiting raises the rank of a process just if it climbs. */
  lemma RankAfterWait(p: Process, throttled: bool)
    ensures Rank(Wait(p), throttled, true) > Rank(p, throttled, true) <==> Climbs(p, throttled)
  {
  }

  /** Of two slots, one of which is unchanged and came first before: the other comes
      first now only by ranking higher than it did. */
  lemma FirstBefore(t: seq<Process>, t': seq<Process>, throttled: bool, start: nat, i: nat, j: nat)
    requires start < |t| == |t'| && i < |t| && j < |t| && i != j
    requires Beats(t, throttled, start, i, j) && Beats(t', throttled, start, j, i)
    requires Rank(t'[i], throttled, true) == Rank(t[i], throttled, true)
    ensures Rank(t'[j], throttled, true) > Rank(t[j], throttled, true)
  {
  }

  /** t' is the table after the others waited one tick, as far as ranks go. */
  ghost predicate OthersWaited(s: Sys, t': seq<Process>, throttled: bool, i: nat)
    requires i < |s.table|
  {
    && |t'| == |s.table|
    && (forall j :: 0 <= j < |t'| ==> t'[j].state == s.table[j].state)
    && (forall j :: 0 <= j < |t'| ==>
      var p := s.table[j];
      var q := if j != s.current && j != i && p.state == Ready then Wait(p) else p;
      Rank(t'[j], throttled, true) == Rank(q, throttled, true))
  }

  /** What a tick that expects slot i does. */
  lemma ExpectedTick(s: Sys, hz: Hz, i: nat, level: Level)
    requires SysOk(s, hz) && Waits(s, i, level) && Predicted(s, hz) == i
    ensures
      var t', on := TickOnly(s, hz).0.table, ThrottledAfter(s, hz);
      && OthersWaited(s, t', on, i) && IsBest(s.table, on, s.current, |s.table|, i)
      && Tick(s, hz).current == Choice(t', on, s.current)
  {
    var (s0, switch) := TurnOver(s, hz);
    var s1 := TickOnly(s, hz).0;
    SameBest(s.table, s0.table, s0.throttle.on, s.current, i);
    assert Runnable(s1.table[i]);
    assert Dist(|s.table|, s.current, i) <= |s.table|;
  }

  /** Whoever is first now, and was not before, climbed past slot i. */
  lemma FirstHasClimbed(s: Sys, t': seq<Process>, throttled: bool, i: nat, c: int)
    requires 0 <= s.current < |s.table| && i < |s.table| && i != s.current && OthersWaited(s, t', throttled, i)
    requires IsBest(s.table, throttled, s.current, |s.table|, i) && IsBest(t', throttled, s.current, |t'|, c) && c != i
    ensures c >= 0 && Overtakes(s, throttled, i, c)
  {
    var t := s.table;
    assert Runnable(t'[i]) && Dist(|t|, s.current, i) <= |t|;
    assert Dist(|t|, s.current, c) <= |t|;
    assert Beats(t, throttled, s.current, i, c) && Beats(t', throttled, s.current, c, i);
    FirstBefore(t, t', throttled, s.current, i, c);
    RankAfterWait(t[c], throttled);
  }

  lemma ClimberComesFirst(s: Sys, t': seq<Process>, throttled: bool, i: nat, j: nat)
    requires 0 <= s.current < |s.table| && i < |s.table| && OthersWaited(s, t', throttled, i)
    requires Overtakes(s, throttled, i, j)
    ensures !IsBest(t', throttled, s.current, |t'|, i)
  {
    assert Dist(|t'|, s.current, j) <= |t'| && Runnable(t'[j]);
    assert !Beats(t', throttled, s.current, i, j);
  }

  /** With slot i expected, the tick gives the CPU to another if and only if another
      READY slot climbs past it. */
  lemma PassedOverExactlyWhen(s: Sys, hz: Hz, i: nat, level: Level)
    requires SysOk(s, hz) && Waits(s, i, level) && Predicted(s, hz) == i
    ensures Tick(s, hz).current != i <==> exists j :: Overtakes(s, ThrottledAfter(s, hz), i, j)
  {
    ExpectedTick(s, hz, i, level);
    var t', on := TickOnly(s, hz).0.table, ThrottledAfter(s, hz);
    var c := Choice(t', on, s.current);
    if c != i {
      FirstHasClimbed(s, t', on, i, c);
    }
    if j :| Overtakes(s, on, i, j) {
      ClimberComesFirst(s, t', on, i, j);
    }
  }

  // ---------- Bounds that hold whatever the others do ----------

  /** A process of the top level is never passed over: fewer than ten ticks a slot. */
  lemma {:induction false} TopLevelWait(states: seq<Sys>, acts: seq<Action>, hz: Hz, i: nat)
    requires WaitingRun(states, acts, hz, i, LEVEL_MAX)
    ensures Ticks(acts) < Left(states[0], i) <= RR_SLICE_TICKS * |states[0].table|
    decreases |acts|
  {
    if acts != [] {
      WaitingTail(states, acts, hz, i, LEVEL_MAX);
      TopLevelWait(states[1..], acts[1..], hz, i);
      assert states[0 + 1] == states[1..][0];
      match acts[0]
      case TickStep => TickSpends(states[0], states[1], hz, i, LEVEL_MAX);
      case YieldStep => YieldSpends(states[0], hz, i, LEVEL_MAX);
      case OtherStep =>
    }
  }

  /** Nobody climbs past slot i on a tick that expects it. */
  ghost predicate Unrivalled(s: Sys, a: Action, hz: Hz, i: nat)
    requires 0 <= s.current < |s.table| && i < |s.table|
  {
    a == TickStep && Predicted(s, hz) == i ==> forall j :: !Overtakes(s, ThrottledAfter(s, hz), i, j)
  }

  lemma {:induction false} NeverPassedOver(states: seq<Sys>, acts: seq<Action>, hz: Hz, i: nat, level: Level)
    requires WaitingRun(states, acts, hz, i, level)
    requires forall k :: 0 <= k < |acts| ==> Unrivalled(states[k], acts[k], hz, i)
    ensures TimesPassedOver(states, acts, hz, i) == 0
    decreases |acts|
  {
    if acts != [] {
      WaitingTail(states, acts, hz, i, level);
      var states', acts' := states[1..], acts[1..];
      forall k | 0 <= k < |acts'| ensures Unrivalled(states'[k], acts'[k], hz, i) {
        assert states'[k] == states[k + 1] && acts'[k] == acts[k + 1];
      }
      NeverPassedOver(states', acts', hz, i, level);
      assert states[0 + 1] == states'[0];
      assert Unrivalled(states[0], acts[0], hz, i);
      if acts[0] == TickStep && Predicted(states[0], hz) == i {
        PassedOverExactlyWhen(states[0], hz, i, level);
      }
    }
  }

  /** When nobody climbs past it on such ticks, its wait is bounded. */
  lemma UnrivalledWait(states: seq<Sys>, acts: seq<Action>, hz: Hz, i: nat, level: Level)
    requires WaitingRun(states, acts, hz, i, level) && MaxWait(|states[0].table|) < WORD_SIZE
    requires forall k :: 0 <= k < |acts| ==> Unrivalled(states[k], acts[k], hz, i)
    ensures var n, p := |states[0].table|, states[0].table[i];
      && Ticks(acts) < 2 * MaxWait(n)
      && (p.waited + MaxWait(n) < WORD_SIZE ==> Ticks(acts) < TicksToTop(p) + RR_SLICE_TICKS * n)
  {
    NeverPassedOver(states, acts, hz, i, level);
    WaitBound(states, acts, hz, i, level);
  }
}
