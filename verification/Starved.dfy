/**
 * A process can wait for ever, in two ways.
 *
 * The table is laid out as at boot: the idle task has slot 0.  Slot 1 waits at level 4,
 * and the processes from slot 2 on run one tick each, in turn.  On every tick slot 1 is
 * expected next.  But the process whose turn was a whole round ago climbs on this very
 * tick: to level 4, and it is nearer in the scan; or, for slot 2, when the scan would
 * reach slot 1 first, to level 5.  So slot 1 is passed over, and as it was expected it
 * does not age.
 *
 * With 21 rivals nothing has to happen but the ticks: slot 2 has level 3 and the
 * others level 2, and each has waited 20 ticks when its turn comes.  With eleven,
 * each has waited ten; all have level 3, and slot 2 is given level 4 just for the
 * tick it wins.  Fewer than eleven are not enough (FewRivals), and fewer than 21 are
 * not enough for ticks alone (TicksAlone).
 */
module Starved {
  import opened Words
  import opened Priority
  import opened PriorityRuns
  import opened Starvation
  import opened FewRivals
  import TicksAlone

  const LONG := 21
  const SHORT := 11

  const WAITER: nat := 1
  const FIRST: nat := 2

  /** How many rivals take turns. */
  type Round = n: nat | n == 11 || n == 21 witness 11

  function Last(round: Round): nat {
    FIRST + round - 1
  }

  /** The level of slot k while slot c has the CPU. */
  function LevelAt(round: Round, c: nat, k: nat): Level {
    if k == 0 then 0
    else if k == WAITER then 4
    else if round == LONG then (if k == FIRST then 3 else 2)
    else if k == FIRST && c == Last(round) then 4 else 3
  }

  /** How many ticks ago slot k was picked, when slot c has just been picked. */
  function Since(round: Round, c: nat, k: nat): nat
    requires FIRST <= c <= Last(round) && FIRST <= k <= Last(round)
  {
    if c >= k then c - k else c - k + round
  }

  function After(round: Round, c: nat): nat {
    if c == Last(round) then FIRST else c + 1
  }

  /** Slot k while slot c has the CPU, with the levels of phase l; `age` is 1 once the
      tick has aged the others.  How long the idle task has waited does not matter. */
  ghost predicate InPhase(p: Process, round: Round, l: nat, c: nat, k: nat, age: nat)
    requires FIRST <= c <= Last(round) && age <= 1
  {
    if k > Last(round) then p.state == Free
    else
      && p.policy == SchedOther && p.level == LevelAt(round, l, k) && p.state == (if k == c then Running else Ready)
      && (k >= WAITER ==> p.waited == if k == WAITER || k == c then 0 else Since(round, c, k) - 1 + age)
  }

  ghost predicate Phase(t: seq<Process>, round: Round, l: nat, c: nat, age: nat) {
    && Last(round) < |t| && FIRST <= c <= Last(round) && age <= 1
    && forall k :: 0 <= k < |t| ==> InPhase(t[k], round, l, c, k, age)
  }

  /** Slot c has just been picked. */
  ghost predicate Cycle(s: Sys, hz: Hz, round: Round, l: nat, c: nat) {
    && SysOk(s, hz) && Phase(s.table, round, l, c, 0) && s.current == c
    && !s.throttle.on && s.throttle.used == 0 && s.table[c].sliceLeft == s.powerSlice
  }

  /** Before the tick the waiting process is first. */
  lemma ExpectsTheWaiter(t: seq<Process>, round: Round, c: nat)
    requires Phase(t, round, c, c, 0)
    ensures IsBest(t, false, c, |t|, WAITER)
  {
    assert InPhase(t[WAITER], round, c, c, WAITER, 0);
    forall k | 0 <= k < |t| && Runnable(t[k]) ensures Beats(t, false, c, WAITER, k) {
      assert InPhase(t[k], round, c, c, k, 0);
    }
  }

  /** Once the others have waited the tick, the slot that waited longest is first. */
  lemma PicksTheNext(t: seq<Process>, round: Round, c: nat)
    requires Phase(t, round, c, c, 1)
    ensures IsBest(t, false, c, |t|, After(round, c))
  {
    var w := After(round, c);
    assert InPhase(t[w], round, c, c, w, 1);
    forall k | 0 <= k < |t| && Runnable(t[k]) ensures Beats(t, false, c, w, k) {
      assert InPhase(t[k], round, c, c, k, 1);
    }
  }

  /** The turn of slot c is over at once: slot 1 ranks higher and is expected next. */
  lemma TurnEnds(s: Sys, hz: Hz, round: Round, c: nat)
    requires Cycle(s, hz, round, c, c)
    ensures
      var (s0, over) := TurnOver(s, hz);
      && over && !s0.throttle.on && s0.throttle.used == 0
      && s0.table == s.table[c := s.table[c].(sliceLeft := s.powerSlice - 1)]
      && Predicted(s, hz) == WAITER
  {
    assert InPhase(s.table[c], round, c, c, c, 0) && InPhase(s.table[WAITER], round, c, c, WAITER, 0);
    var t := s.table[c := s.table[c].(sliceLeft := s.powerSlice - 1)];
    ExpectsTheWaiter(t, round, c);
    BestUnique(t, false, c, WAITER, Choice(t, false, c));
  }

  /** The tick before the hand-over. */
  lemma OthersAge(s: Sys, s1: Sys, hz: Hz, round: Round, c: nat)
    requires Cycle(s, hz, round, c, c) && s1 == TickOnly(s, hz).0
    ensures TickOnly(s, hz).1 && Phase(s1.table, round, c, c, 1) && |s1.table| == |s.table| && s1.current == c
    ensures !s1.throttle.on && s1.throttle.used == 0 && s1.powerSlice == s.powerSlice
    ensures s1.table[WAITER] == s.table[WAITER]
  {
    TurnEnds(s, hz, round, c);
    forall k | 0 <= k < |s1.table| ensures InPhase(s1.table[k], round, c, c, k, 1) {
      assert InPhase(s.table[k], round, c, c, k, 0);
    }
  }

  /** The hand-over. */
  lemma NextIsPicked(s1: Sys, s': Sys, round: Round, c: nat)
    requires Phase(s1.table, round, c, c, 1) && s1.current == c && !s1.throttle.on && s' == Yield(s1)
    ensures s'.current == After(round, c) && Phase(s'.table, round, c, After(round, c), 0)
    ensures s'.table[WAITER] == s1.table[WAITER] && s'.table[After(round, c)].sliceLeft == s'.powerSlice
  {
    var w := After(round, c);
    PicksTheNext(s1.table, round, c);
    BestUnique(s1.table, false, c, w, Choice(s1.table, false, c));
    assert InPhase(s1.table[c], round, c, c, c, 1) && InPhase(s1.table[w], round, c, c, w, 1);
    forall k | 0 <= k < |s'.table| ensures InPhase(s'.table[k], round, c, w, k, 0) {
      assert InPhase(s1.table[k], round, c, c, k, 1);
    }
  }

  /** One tick: slot 1 is expected, passed over and left as it was. */
  lemma CycleGoesOn(s: Sys, hz: Hz, round: Round, c: nat)
    requires Cycle(s, hz, round, c, c)
    ensures var s' := Tick(s, hz);
      Cycle(s', hz, round, c, After(round, c)) && s'.table[WAITER] == s.table[WAITER] && |s'.table| == |s.table|
    ensures PassedOver(s, TickStep, hz, WAITER)
  {
    StepsKeepOk(s, hz);
    TurnEnds(s, hz, round, c);
    var s1 := TickOnly(s, hz).0;
    OthersAge(s, s1, hz, round, c);
    NextIsPicked(s1, Tick(s, hz), round, c);
    assert InPhase(s.table[WAITER], round, c, c, WAITER, 0);
  }

  /** In a long round the levels never change. */
  lemma SameLevels(s: Sys, hz: Hz, l: nat, c: nat)
    requires Cycle(s, hz, LONG, l, c)
    ensures Cycle(s, hz, LONG, c, c)
  {
    forall k | 0 <= k < |s.table| ensures InPhase(s.table[k], LONG, c, c, k, 0) {
      assert InPhase(s.table[k], LONG, l, c, k, 0);
    }
  }

  lemma CycleWaits(s: Sys, hz: Hz, round: Round, l: nat, c: nat)
    requires Cycle(s, hz, round, l, c)
    ensures Waits(s, WAITER, 4) && NoRealtimeRank(s)
  {
    assert InPhase(s.table[WAITER], round, l, c, WAITER, 0);
    forall k | 0 <= k < |s.table| && Runnable(s.table[k]) ensures Rank(s.table[k], s.throttle.on, true) <= RANK_TOP {
      assert InPhase(s.table[k], round, l, c, k, 0);
    }
  }

  // ---------- 21 rivals: nothing but ticks ----------

  /** After n ticks and nothing else. */
  ghost function Ticked(s: Sys, hz: Hz, n: nat): (s': Sys)
    requires SysOk(s, hz) && 0 <= s.current
    ensures SysOk(s', hz) && 0 <= s'.current
    decreases n
  {
    if n == 0 then s else
      StepsKeepOk(s, hz);
      Ticked(Tick(s, hz), hz, n - 1)
  }

  /** The slot is READY and as it was at the start, and another has the CPU. */
  ghost predicate StillWaits(s: Sys, s': Sys, i: nat, level: Level) {
    Waits(s', i, level) && NoRealtimeRank(s') && i < |s.table| && s'.table[i] == s.table[i]
  }

  lemma StillWaitsOn(start: Sys, s: Sys, hz: Hz, c: nat)
    requires Cycle(s, hz, LONG, c, c) && StillWaits(start, s, WAITER, 4)
    ensures var s', c' := Tick(s, hz), After(LONG, c); Cycle(s', hz, LONG, c', c') && StillWaits(start, s', WAITER, 4)
  {
    CycleGoesOn(s, hz, LONG, c);
    SameLevels(Tick(s, hz), hz, c, After(LONG, c));
    CycleWaits(Tick(s, hz), hz, LONG, c, After(LONG, c));
  }

  lemma {:induction false} NeverRuns(start: Sys, s: Sys, hz: Hz, c: nat, n: nat)
    requires Cycle(s, hz, LONG, c, c) && StillWaits(start, s, WAITER, 4)
    ensures StillWaits(start, Ticked(s, hz, n), WAITER, 4)
    decreases n
  {
    if n > 0 {
      StillWaitsOn(start, s, hz, c);
      NeverRuns(start, Tick(s, hz), hz, After(LONG, c), n - 1);
    }
  }

  /** Slot 2 has just been picked. */
  function StartingTable(round: Round): (t: seq<Process>)
    ensures |t| == 64
  {
    seq(64, k =>
      if k == 0 then Process(Ready, SchedOther, 0, 0, 0, 0, 0)
      else if k == WAITER then Process(Ready, SchedOther, 4, 0, 0, 0, 0)
      else if k == FIRST then Process(Running, SchedOther, 3, 0, 5, 0, 0)
      else if FIRST < k <= Last(round) then
        Process(Ready, SchedOther, LevelAt(round, FIRST, k), 0, 4, Last(round) - k, 0)
      else Process(Free, SchedOther, 1, 0, 0, 0, 0))
  }

  /** Slots 2 to n + 1. */
  ghost function Slots(n: nat): (r: set<nat>)
    ensures |r| == n && forall k: nat :: k in r <==> FIRST <= k < FIRST + n
  {
    if n == 0 then {} else Slots(n - 1) + {FIRST + n - 1}
  }

  ghost predicate Others(rivals: set<nat>, round: Round) {
    forall k: nat :: k in rivals <==> FIRST <= k <= Last(round)
  }

  /** All the others but the idle task can climb. */
  lemma CycleClimbers(s: Sys, hz: Hz, round: Round, l: nat, c: nat, rivals: set<nat>)
    requires Cycle(s, hz, round, l, c) && Others(rivals, round)
    ensures Climbers(s, WAITER) == rivals && OnlyCurrentRuns(s)
  {
    forall k: nat | k < |s.table|
      ensures s.table[k].state == Running ==> k == s.current
      ensures k != WAITER && Runnable(s.table[k]) && CanClimb(s.table[k]) <==> k in rivals
    {
      assert InPhase(s.table[k], round, l, c, k, 0);
    }
  }

  lemma StartsInPhase(s: Sys, hz: Hz, round: Round)
    requires s == Sys(StartingTable(round), FIRST, FRESH, CPU_SLICE_TICKS)
    ensures Cycle(s, hz, round, FIRST, FIRST)
  {
    forall k | 0 <= k < |s.table| ensures InPhase(s.table[k], round, FIRST, FIRST, k, 0) {
    }
  }

  /** The idle task is READY in its slot. */
  predicate IdleWaits(s: Sys) {
    s.table != [] && s.table[0].state == Ready && s.table[0].level == 0
  }

  lemma Starts(hz: Hz, round: Round) returns (s: Sys, rivals: set<nat>)
    ensures Cycle(s, hz, round, FIRST, FIRST) && IdleWaits(s)
    ensures Others(rivals, round) && |rivals| == round && Climbers(s, WAITER) == rivals && OnlyCurrentRuns(s)
  {
    s, rivals := Sys(StartingTable(round), FIRST, FRESH, CPU_SLICE_TICKS), Slots(round);
    StartsInPhase(s, hz, round);
    CycleClimbers(s, hz, round, FIRST, FIRST, rivals);
  }

  /** THERE IS NO BOUND ON WAITING: from one table, in which slot 0 is idle and READY and
      21 others can climb, no number of ticks ever gives the CPU to a READY process of
      level 4. */
  lemma StarvesForEver(hz: Hz)
    ensures exists s: Sys ::
      && SysOk(s, hz) && 0 <= s.current && OnlyCurrentRuns(s) && IdleWaits(s)
      && |Climbers(s, WAITER)| == TicksAlone.MAX_CLIMBERS + 1
      && forall n: nat :: StillWaits(s, Ticked(s, hz, n), WAITER, 4)
  {
    var s, rivals := Starts(hz, LONG);
    CycleWaits(s, hz, LONG, FIRST, FIRST);
    forall n: nat ensures StillWaits(s, Ticked(s, hz, n), WAITER, 4) {
      NeverRuns(s, s, hz, FIRST, n);
    }
  }

  // ---------- Eleven rivals: one of them changes its level ----------

  lemma RunCons(s: Sys, a: Action, rest: seq<Sys>, acts: seq<Action>, hz: Hz, i: nat, level: Level)
    requires WaitingRun(rest, acts, hz, i, level)
    requires SysOk(s, hz) && Waits(s, i, level) && NoRealtimeRank(s) && |s.table| == |rest[0].table|
    requires Step(s, a, rest[0], hz, i)
    ensures WaitingRun([s] + rest, [a] + acts, hz, i, level)
    ensures Ticks([a] + acts) == Ticks(acts) + if a == TickStep then 1 else 0
  {
    var states, more := [s] + rest, [a] + acts;
    assert more[1..] == acts;
    forall k | 0 <= k < |more| ensures Step(states[k], more[k], states[k + 1], hz, i) {
      if k > 0 {
        assert Step(rest[k - 1], acts[k - 1], rest[k - 1 + 1], hz, i);
      }
    }
  }

  /** Slot 1 never runs and never ages. */
  ghost predicate NeverServed(states: seq<Sys>) {
    forall k :: 0 <= k < |states| ==> StillWaits(states[0], states[k], WAITER, 4)
  }

  /** Slot 2 gets the level it needs for the next tick. */
  function Reniced(s: Sys, c: nat): Sys
    requires FIRST < |s.table|
  {
    s.(table := s.table[FIRST := s.table[FIRST].(level := LevelAt(SHORT, c, FIRST))])
  }

  lemma ReniceGoesOn(s: Sys, hz: Hz, l: nat, c: nat)
    requires Cycle(s, hz, SHORT, l, c)
    ensures var s' := Reniced(s, c);
      Cycle(s', hz, SHORT, c, c) && OtherChange(s, s', WAITER) && WaitedKept(s, s') && |s'.table| == |s.table|
  {
    var s' := Reniced(s, c);
    forall k | 0 <= k < |s'.table| ensures InPhase(s'.table[k], SHORT, c, c, k, 0) {
      assert InPhase(s.table[k], SHORT, l, c, k, 0);
    }
  }

  lemma CycleRivals(s: Sys, hz: Hz, l: nat, c: nat, rivals: set<nat>)
    requires Cycle(s, hz, SHORT, l, c) && Others(rivals, SHORT)
    ensures RivalsOf(s, WAITER, rivals)
  {
    CycleClimbers(s, hz, SHORT, l, c, rivals);
    assert forall k: nat :: k in Climbers(s, WAITER) ==> k in rivals;
  }

  lemma RivalCons(
    s: Sys, a: Action, rest: seq<Sys>, acts: seq<Action>, hz: Hz, i: nat, level: Level, rivals: set<nat>)
    requires RivalRun(rest, acts, hz, i, level, rivals) && RivalsOf(s, i, rivals)
    requires SysOk(s, hz) && Waits(s, i, level) && NoRealtimeRank(s) && |s.table| == |rest[0].table|
    requires Step(s, a, rest[0], hz, i) && (a == OtherStep ==> WaitedKept(s, rest[0]))
    ensures RivalRun([s] + rest, [a] + acts, hz, i, level, rivals)
    ensures Ticks([a] + acts) == Ticks(acts) + if a == TickStep then 1 else 0
  {
    RunCons(s, a, rest, acts, hz, i, level);
    var states, more := [s] + rest, [a] + acts;
    forall k | 0 <= k < |more| && more[k] == OtherStep ensures WaitedKept(states[k], states[k + 1]) {
      if k > 0 {
        assert WaitedKept(rest[k - 1], rest[k - 1 + 1]);
      }
    }
  }

  ghost predicate RenicedRun(states: seq<Sys>, acts: seq<Action>, hz: Hz, n: nat, rivals: set<nat>) {
    Ticks(acts) == n && RivalRun(states, acts, hz, WAITER, 4, rivals) && NeverServed(states)
  }

  /** A tick and a change of level in front of such a run. */
  lemma RenicedCons(
    s: Sys, s1: Sys, rest: seq<Sys>, acts: seq<Action>, hz: Hz, c: nat, n: nat, rivals: set<nat>)
    requires Cycle(s, hz, SHORT, c, c) && s1 == Tick(s, hz) && Others(rivals, SHORT)
    requires RenicedRun(rest, acts, hz, n, rivals) && rest[0] == Reniced(s1, After(SHORT, c))
    ensures RenicedRun([s] + ([s1] + rest), [TickStep] + ([OtherStep] + acts), hz, n + 1, rivals)
  {
    var c' := After(SHORT, c);
    CycleWaits(s, hz, SHORT, c, c);
    CycleRivals(s, hz, c, c, rivals);
    CycleGoesOn(s, hz, SHORT, c);
    CycleWaits(s1, hz, SHORT, c, c');
    CycleRivals(s1, hz, c, c', rivals);
    ReniceGoesOn(s1, hz, c, c');
    RivalCons(s1, OtherStep, rest, acts, hz, WAITER, 4, rivals);
    RivalCons(s, TickStep, [s1] + rest, [OtherStep] + acts, hz, WAITER, 4, rivals);
  }

  lemma {:induction false} NeverRunsAmongTwelve(s: Sys, hz: Hz, c: nat, n: nat, rivals: set<nat>)
    returns (states: seq<Sys>, acts: seq<Action>)
    requires Cycle(s, hz, SHORT, c, c) && Others(rivals, SHORT)
    ensures RenicedRun(states, acts, hz, n, rivals) && states[0] == s
    decreases n
  {
    if n == 0 {
      CycleWaits(s, hz, SHORT, c, c);
      CycleRivals(s, hz, c, c, rivals);
      states, acts := [s], [];
    } else {
      var c', s1 := After(SHORT, c), Tick(s, hz);
      CycleGoesOn(s, hz, SHORT, c);
      ReniceGoesOn(s1, hz, c, c');
      var rest, more := NeverRunsAmongTwelve(Reniced(s1, c'), hz, c', n - 1, rivals);
      RenicedCons(s, s1, rest, more, hz, c, n - 1, rivals);
      states, acts := [s] + ([s1] + rest), [TickStep] + ([OtherStep] + more);
    }
  }

  ghost predicate CanLast(s: Sys, hz: Hz, n: nat, rivals: set<nat>) {
    exists states: seq<Sys>, acts: seq<Action> :: RenicedRun(states, acts, hz, n, rivals) && states[0] == s
  }

  /** TEN RIVALS ARE THE MOST: from one table with eleven, the wait can be of any length. */
  lemma ElevenAreTooMany(hz: Hz)
    ensures exists s: Sys, rivals: set<nat> ::
      && Climbers(s, WAITER) == rivals && |rivals| == MAX_RIVALS + 1 && IdleWaits(s)
      && forall n: nat :: CanLast(s, hz, n, rivals)
  {
    var s, rivals := Starts(hz, SHORT);
    forall n: nat ensures CanLast(s, hz, n, rivals) {
      var states, acts := NeverRunsAmongTwelve(s, hz, FIRST, n, rivals);
    }
  }
}
