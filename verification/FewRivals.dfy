/**
 * With at most ten rivals nobody starves.  A rival is a process that ageing can raise:
 * neither the idle task nor one of SCHED_IDLE.  Being passed over costs the winner
 * nine ticks of waiting, and on such a tick the other rivals, but for the one that had
 * the CPU, gain one each: so the ticks on which a process is passed over are bounded
 * by the others.
 */
module FewRivals {
  import opened Words
  import opened Priority
  import opened PriorityRuns
  import opened Starvation

  const MAX_RIVALS := 10

  /** Waited ticks change only on ticks and turns; a new process has none. */
  ghost predicate WaitedKept(s: Sys, s': Sys)
    requires |s.table| == |s'.table|
  {
    forall j :: 0 <= j < |s.table| ==> s'.table[j].waited == s.table[j].waited || s'.table[j].waited == 0
  }

  /** Ageing raises all but the idle task (level 0) and SCHED_IDLE processes. */
  predicate CanClimb(p: Process) {
    p.level >= 1 && p.policy != SchedIdle
  }

  /** Who can climb, other than slot i. */
  ghost function Climbers(s: Sys, i: nat): set<nat> {
    set j: nat | j < |s.table| && j != i && Runnable(s.table[j]) && CanClimb(s.table[j])
  }

  /** Whoever can climb and has the CPU or is READY, other than slot i, is a rival. */
  ghost predicate RivalsOf(s: Sys, i: nat, rivals: set<nat>) {
    forall j: nat :: j < |s.table| && j != i && CanClimb(s.table[j]) ==>
      s.table[j].state == Ready || j == s.current ==> j in rivals
  }

  ghost predicate RivalRun(states: seq<Sys>, acts: seq<Action>, hz: Hz, i: nat, level: Level, rivals: set<nat>) {
    && WaitingRun(states, acts, hz, i, level)
    && (forall k :: 0 <= k < |states| ==> RivalsOf(states[k], i, rivals))
    && (forall k :: 0 <= k < |acts| && acts[k] == OtherStep ==> WaitedKept(states[k], states[k + 1]))
  }

  // ---------- What the rivals have saved up ----------

  /** Ticks of waiting that can still be lost: up to nine. */
  function Saved(p: Process): nat {
    Min(p.waited, 9)
  }

  ghost function Count(rivals: set<nat>, k: nat): nat {
    if k == 0 then 0 else Count(rivals, k - 1) + if k - 1 in rivals then 1 else 0
  }

  ghost function AllSaved(t: seq<Process>, rivals: set<nat>, k: nat): nat
    requires k <= |t|
  {
    if k == 0 then 0 else AllSaved(t, rivals, k - 1) + if k - 1 in rivals then Saved(t[k - 1]) else 0
  }

  /** One more while the CPU is with the idle task or another that cannot climb. */
  ghost function Extra(s: Sys, rivals: set<nat>): nat {
    if s.current >= 0 && s.current in rivals then 0 else 1
  }

  ghost function Potential(s: Sys, rivals: set<nat>): nat {
    AllSaved(s.table, rivals, |s.table|) + Extra(s, rivals)
  }

  lemma {:induction false} CountAtMost(rivals: set<nat>, k: nat)
    ensures Count(rivals, k) <= |rivals|
  {
    if k > 0 {
      if k - 1 in rivals {
        CountWithout(rivals, k - 1, k - 1);
        CountAtMost(rivals - {k - 1}, k - 1);
      } else {
        CountAtMost(rivals, k - 1);
      }
    }
  }

  lemma {:induction false} CountWithout(rivals: set<nat>, x: nat, k: nat)
    requires k <= x
    ensures Count(rivals - {x}, k) == Count(rivals, k)
  {
    if k > 0 {
      CountWithout(rivals, x, k - 1);
    }
  }

  lemma {:induction false} SavedAtMost(t: seq<Process>, rivals: set<nat>, k: nat)
    requires k <= |t|
    ensures AllSaved(t, rivals, k) <= 9 * Count(rivals, k)
  {
    if k > 0 {
      SavedAtMost(t, rivals, k - 1);
    }
  }

  /** What one slot gains on a tick: at most one, nothing for the slot that had the CPU,
      and the loss of all nine for a winner. */
  ghost predicate Gains(p: Process, q: Process, hadCpu: bool, lost: bool) {
    Saved(q) <= Saved(p) + (if lost then -9 else if hadCpu then 0 else 1)
  }

  /** Summed up over the rivals; `winner` is -1 if nobody was passed over. */
  lemma {:induction false} SavedAfter(
    t: seq<Process>, t': seq<Process>, rivals: set<nat>, current: nat, winner: int, k: nat)
    requires |t'| == |t| && k <= |t| && current != winner
    requires forall j :: 0 <= j < |t| ==> Gains(t[j], t'[j], j == current, j == winner)
    ensures AllSaved(t', rivals, k) <= AllSaved(t, rivals, k) + Count(rivals, k)
              - (if current < k && current in rivals then 1 else 0)
              - (if 0 <= winner < k && winner in rivals then 10 else 0)
  {
    if k > 0 {
      SavedAfter(t, t', rivals, current, winner, k - 1);
      assert Gains(t[k - 1], t'[k - 1], k - 1 == current, k - 1 == winner);
    }
  }

  lemma {:induction false} SavedNoMore(t: seq<Process>, t': seq<Process>, rivals: set<nat>, k: nat)
    requires |t'| == |t| && k <= |t| && forall j :: 0 <= j < |t| ==> Saved(t'[j]) <= Saved(t[j])
    ensures AllSaved(t', rivals, k) <= AllSaved(t, rivals, k)
  {
    if k > 0 {
      SavedNoMore(t, t', rivals, k - 1);
    }
  }

  // ---------- One step ----------

  lemma TickGains(s: Sys, hz: Hz, j: nat)
    requires SysOk(s, hz) && 0 <= s.current && j < |s.table|
    ensures Gains(s.table[j], Tick(s, hz).table[j], j == s.current, false)
    ensures Tick(s, hz).current == j && j != s.current ==> Tick(s, hz).table[j].waited == 0
  {
    var (s1, switch) := TickOnly(s, hz);
    assert s1.table[j].waited == s.table[j].waited || (j != s.current && s1.table[j].waited == Inc(s.table[j].waited));
  }

  lemma ClimberHasNine(p: Process, throttled: bool)
    requires Climbs(p, throttled)
    ensures Saved(p) == 9
  {
  }

  /** On a tick that passes slot i over, the winner loses nine. */
  lemma WinnerLoses(s: Sys, s': Sys, hz: Hz, i: nat, level: Level)
    requires SysOk(s, hz) && Waits(s, i, level) && PassedOver(s, TickStep, hz, i)
    requires s' == Tick(s, hz) && Waits(s', i, level)
    ensures s'.current != s.current && Gains(s.table[s'.current], s'.table[s'.current], false, true)
  {
    ExpectedTick(s, hz, i, level);
    var t', on, c := TickOnly(s, hz).0.table, ThrottledAfter(s, hz), s'.current;
    FirstHasClimbed(s, t', on, i, c);
    ClimberHasNine(s.table[c], on);
    TickGains(s, hz, c);
  }

  /** While a normal process waits, the CPU is handed only to one that can climb. */
  lemma HandedToClimber(s: Sys, hz: Hz, i: nat, level: Level)
    requires SysOk(s, hz) && Waits(s, i, level) && NoRealtimeRank(Yield(s))
    ensures var c := Choice(s.table, s.throttle.on, s.current); 0 <= c < |s.table| && CanClimb(s.table[c])
  {
    HandOver(s, hz, i, level);
    var c := Choice(s.table, s.throttle.on, s.current);
    assert Dist(|s.table|, s.current, i) <= |s.table|;
    assert Beats(s.table, s.throttle.on, s.current, c, i);
  }

  lemma YieldExtra(s: Sys, s': Sys, hz: Hz, i: nat, level: Level, rivals: set<nat>)
    requires SysOk(s, hz) && Waits(s, i, level) && NoRealtimeRank(s') && s' == Yield(s)
    requires Waits(s', i, level) && RivalsOf(s', i, rivals)
    ensures s'.current != s.current ==> s'.current in rivals
  {
    HandedToClimber(s, hz, i, level);
  }

  lemma TickExtra(s: Sys, s': Sys, hz: Hz, i: nat, level: Level, rivals: set<nat>)
    requires SysOk(s, hz) && Waits(s, i, level) && NoRealtimeRank(s') && s' == Tick(s, hz)
    requires Waits(s', i, level) && RivalsOf(s', i, rivals)
    ensures s'.current != s.current ==> s'.current in rivals
  {
    TickAges(s, hz, i, level);
    var (s1, switch) := TickOnly(s, hz);
    if switch {
      YieldExtra(s1, s', hz, i, level, rivals);
    }
  }

  lemma TickSaves(s: Sys, s': Sys, hz: Hz, i: nat, level: Level, rivals: set<nat>)
    requires SysOk(s, hz) && Waits(s, i, level) && NoRealtimeRank(s') && |rivals| <= MAX_RIVALS
    requires s' == Tick(s, hz) && Waits(s', i, level) && RivalsOf(s', i, rivals)
    ensures Potential(s', rivals) <= Potential(s, rivals) + if PassedOver(s, TickStep, hz, i) then -1 else 10
  {
    var passed, n := PassedOver(s, TickStep, hz, i), |s.table|;
    var winner := if passed then s'.current else -1;
    if passed {
      WinnerLoses(s, s', hz, i, level);
    }
    forall j | 0 <= j < n ensures Gains(s.table[j], s'.table[j], j == s.current, j == winner) {
      TickGains(s, hz, j);
    }
    SavedAfter(s.table, s'.table, rivals, s.current, winner, n);
    CountAtMost(rivals, n);
    TickExtra(s, s', hz, i, level, rivals);
  }

  lemma YieldSaves(s: Sys, s': Sys, hz: Hz, i: nat, level: Level, rivals: set<nat>)
    requires SysOk(s, hz) && Waits(s, i, level) && NoRealtimeRank(s') && s' == Yield(s)
    requires Waits(s', i, level) && RivalsOf(s', i, rivals)
    ensures Potential(s', rivals) <= Potential(s, rivals)
  {
    SavedNoMore(s.table, s'.table, rivals, |s.table|);
    YieldExtra(s, s', hz, i, level, rivals);
  }

  lemma StepSaves(s: Sys, a: Action, s': Sys, hz: Hz, i: nat, level: Level, rivals: set<nat>)
    requires SysOk(s, hz) && Waits(s, i, level) && |rivals| <= MAX_RIVALS
    requires Waits(s', i, level) && NoRealtimeRank(s') && RivalsOf(s', i, rivals) && |s'.table| == |s.table|
    requires Step(s, a, s', hz, i) && (a == OtherStep ==> WaitedKept(s, s'))
    ensures Potential(s', rivals) <= Potential(s, rivals)
              + if a != TickStep then 0 else if PassedOver(s, a, hz, i) then -1 else 10
  {
    match a
    case TickStep => TickSaves(s, s', hz, i, level, rivals);
    case YieldStep => YieldSaves(s, s', hz, i, level, rivals);
    case OtherStep => SavedNoMore(s.table, s'.table, rivals, |s.table|);
  }

  // ---------- Whole runs ----------

  lemma RivalTail(states: seq<Sys>, acts: seq<Action>, hz: Hz, i: nat, level: Level, rivals: set<nat>)
    requires RivalRun(states, acts, hz, i, level, rivals) && acts != []
    ensures RivalRun(states[1..], acts[1..], hz, i, level, rivals)
  {
    WaitingTail(states, acts, hz, i, level);
    var states', acts' := states[1..], acts[1..];
    forall k | 0 <= k < |acts'| && acts'[k] == OtherStep ensures WaitedKept(states'[k], states'[k + 1]) {
      assert WaitedKept(states[k + 1], states[k + 1 + 1]);
    }
  }

  /** The ticks on which slot i was passed over, against all others. */
  lemma {:induction false} PassedOverAtMost(
    states: seq<Sys>, acts: seq<Action>, hz: Hz, i: nat, level: Level, rivals: set<nat>)
    requires RivalRun(states, acts, hz, i, level, rivals) && |rivals| <= MAX_RIVALS
    ensures var times := TimesPassedOver(states, acts, hz, i);
      times <= Ticks(acts) && times <= Potential(states[0], rivals) + 10 * (Ticks(acts) - times)
    decreases |acts|
  {
    if acts != [] {
      RivalTail(states, acts, hz, i, level, rivals);
      PassedOverAtMost(states[1..], acts[1..], hz, i, level, rivals);
      assert states[0 + 1] == states[1..][0];
      StepSaves(states[0], acts[0], states[1], hz, i, level, rivals);
    }
  }

  /** NO STARVATION AMONG ELEVEN: with at most ten rivals, whatever they do, the wait of
      a normal process is bounded. */
  lemma NoStarvation(states: seq<Sys>, acts: seq<Action>, hz: Hz, i: nat, level: Level, rivals: set<nat>)
    requires RivalRun(states, acts, hz, i, level, rivals) && |rivals| <= MAX_RIVALS
    requires MaxWait(|states[0].table|) < WORD_SIZE
    ensures var n, p := |states[0].table|, states[0].table[i];
      && Ticks(acts) < 91 + 22 * MaxWait(n)
      && (p.waited + MaxWait(n) < WORD_SIZE ==> Ticks(acts) < 91 + 11 * (TicksToTop(p) + RR_SLICE_TICKS * n))
  {
    var n := |states[0].table|;
    WaitBound(states, acts, hz, i, level);
    PassedOverAtMost(states, acts, hz, i, level, rivals);
    SavedAtMost(states[0].table, rivals, n);
    CountAtMost(rivals, n);
  }
}
