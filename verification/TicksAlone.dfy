/**
 * When nothing happens but the ticks, at most twenty rivals cannot starve a process.
 *
 * While slot i is passed over tick after tick, whoever wins has just waited a multiple
 * of ten ticks, and runs for one tick.  So the rivals fall into ten classes by the last
 * digit of their waiting time, and each class takes one of every ten ticks.  With
 * twenty rivals, one of them running, some class holds a single waiting process: on
 * its tick that one must win, and the process that was running takes its place.  That
 * process must then win ten ticks later, when it has gained a single level: as it had
 * lost the CPU to slot i's higher rank, it can only draw level with it and be nearer in
 * the scan.  So every ten ticks the scan starts farther from slot i, which must end.
 *
 * With 21 rivals it need not end (Starved).
 */
module TicksAlone {
  import opened Arith
  import opened Words
  import opened Priority
  import opened PriorityRuns
  import opened Starvation
  import opened FewRivals

  const MAX_CLIMBERS := 20

  // ---------- One tick that passes slot i over ----------

  /** The process at the CPU has just been picked. */
  ghost predicate JustPicked(s: Sys) {
    && 0 <= s.current < |s.table|
    && var p := s.table[s.current]; p.state == Running && p.waited == 0 && p.sliceLeft == s.powerSlice
  }

  ghost predicate Passes(s: Sys, s': Sys, hz: Hz, i: nat, level: Level) {
    && SysOk(s, hz) && Waits(s, i, level) && NoRealtimeRank(s) && OnlyCurrentRuns(s)
    && s' == Tick(s, hz) && Waits(s', i, level) && NoRealtimeRank(s') && PassedOver(s, TickStep, hz, i)
  }

  /** The effective level of slot i. */
  function Reached(s: Sys, i: nat): Level
    requires i < |s.table|
  {
    Aged(s.table[i].level, s.table[i].waited)
  }

  /** Slot i is first, so the rivals have not come higher, and none of them is about to
      overflow its counter. */
  lemma NoneHigher(s: Sys, s': Sys, hz: Hz, i: nat, level: Level, j: nat)
    requires Passes(s, s', hz, i, level) && j in Climbers(s, i)
    ensures !(IsRealtime(s.table[j].policy) && !ThrottledAfter(s, hz))
    ensures Aged(s.table[j].level, s.table[j].waited) <= Reached(s, i) < LEVEL_MAX && s.table[j].waited < 60
  {
    ExpectedTick(s, hz, i, level);
    TopLevel(s.table[i]);
    assert Dist(|s.table|, s.current, j) <= |s.table|;
    assert Beats(s.table, ThrottledAfter(s, hz), s.current, i, j);
  }

  lemma WinnerOvertakes(s: Sys, s': Sys, hz: Hz, i: nat, level: Level)
    requires Passes(s, s', hz, i, level)
    ensures Overtakes(s, ThrottledAfter(s, hz), i, s'.current) && s'.current in Climbers(s, i)
    ensures s.table[s'.current].waited % AGING_TICKS == 9
  {
    ExpectedTick(s, hz, i, level);
    var t', on := TickOnly(s, hz).0.table, ThrottledAfter(s, hz);
    FirstHasClimbed(s, t', on, i, s'.current);
  }

  lemma AgedSlot(s: Sys, s1: Sys, hz: Hz, i: nat, j: nat)
    requires 0 <= s.current < |s.table| && s.current != i && Predicted(s, hz) == i && j < |s.table|
    requires s1 == TickOnly(s, hz).0
    ensures s1.table[j] == AgeSlot(s.table[j], j, s.current, i).(sliceLeft := s1.table[j].sliceLeft)
    ensures Tick(s, hz) == Yield(s1)
  {
  }

  lemma SwitchedSlot(s1: Sys, s': Sys, j: nat)
    requires 0 <= s1.current < |s1.table| && j < |s1.table| && s' == Yield(s1) && s'.current != s1.current
    ensures var p, p' := s1.table[j], s'.table[j];
      if j == s'.current then p' == StartTurn(p.(state := Running), s1.throttle.on, s1.powerSlice)
      else if j == s1.current && p.state == Running then p' == p.(state := Ready)
      else p' == p
  {
  }

  /** What the tick and the hand-over make of each slot. */
  lemma SlotAfter(s: Sys, s': Sys, hz: Hz, i: nat, level: Level, j: nat)
    requires Passes(s, s', hz, i, level) && j < |s.table|
    ensures var p, p', w := s.table[j], s'.table[j], s'.current;
      && |s'.table| == |s.table| && p'.policy == p.policy && p'.level == p.level && (Runnable(p') <==> Runnable(p))
      && (j == w ==> p'.state == Running && p'.waited == 0 &&
                     p'.sliceLeft == SliceTicks(p, ThrottledAfter(s, hz), s.powerSlice))
      && (j != w && (j == i || j == s.current) ==> p'.waited == p.waited)
      && (j != w && j != i && j != s.current && p.state == Ready ==> p'.waited == Inc(p.waited))
  {
    WinnerOvertakes(s, s', hz, i, level);
    var s1 := TickOnly(s, hz).0;
    AgedSlot(s, s1, hz, i, j);
    SwitchedSlot(s1, s', j);
  }

  /** The process at the CPU had its whole slice before it: it loses the CPU only because
      slot i ranks higher. */
  lemma LosesToHigher(s: Sys, s': Sys, hz: Hz, i: nat, level: Level)
    requires Passes(s, s', hz, i, level) && JustPicked(s) && s.current in Climbers(s, i)
    ensures s.table[s.current].level < Reached(s, i)
  {
    var c, on := s.current, ThrottledAfter(s, hz);
    NoneHigher(s, s', hz, i, level, c);
    ExpectedTick(s, hz, i, level);
    GivesUpExactlyWhen(s, hz);
    assert Rank(s.table[c], s.throttle.on, true) <= RANK_TOP;
    var j :| Pushes(s.table, on, c, j, Rank(s.table[c], on, true));
    BestUnique(s.table, on, c, i, j);
  }

  // ---------- What such ticks have in common ----------

  /** The CPU goes from a rival that has just been picked to one whose waiting time ends
      in nine; the other rivals wait one tick more. */
  ghost predicate Handed(s: Sys, s': Sys, rivals: set<nat>, i: nat) {
    && 0 <= s.current < |s.table| && 0 <= s'.current < |s'.table| == |s.table| && i < |s.table| && i != s.current
    && (forall j :: j in rivals ==> j < |s.table|)
    && s.current in rivals && s'.current in rivals && s'.current != s.current
    && s.table[s'.current].waited % AGING_TICKS == 9 && s'.table[s'.current].waited == 0
    && s'.table[s.current].waited == s.table[s.current].waited == 0
    && (forall j :: j in rivals && j != s.current && j != s'.current ==> s'.table[j].waited == s.table[j].waited + 1)
    && (forall j :: j in rivals ==> s'.table[j].level == s.table[j].level)
    && Reached(s', i) == Reached(s, i) && s.table[s.current].level < Reached(s, i)
    && (s.table[s'.current].waited == 9 && s.table[s'.current].level < Reached(s, i) ==>
         Dist(|s.table|, s.current, s'.current) < Dist(|s.table|, s.current, i))
  }

  ghost predicate SameKind(p: Process, q: Process) {
    (Runnable(p) <==> Runnable(q)) && p.level == q.level && p.policy == q.policy
  }

  lemma TickKeepsKind(s: Sys, s1: Sys, hz: Hz, j: nat)
    requires CurrentOk(s) && s1 == TickOnly(s, hz).0 && j < |s.table|
    ensures SameKind(s.table[j], s1.table[j])
  {
  }

  lemma YieldKeepsKind(s1: Sys, s': Sys, j: nat)
    requires 0 <= s1.current < |s1.table| && s' == Yield(s1) && j < |s1.table|
    ensures SameKind(s1.table[j], s'.table[j])
  {
  }

  lemma ClimbersKept(s: Sys, s': Sys, hz: Hz, i: nat)
    requires 0 <= s.current < |s.table| && s' == Tick(s, hz)
    ensures Climbers(s', i) == Climbers(s, i)
  {
    var (s1, switch) := TickOnly(s, hz);
    forall j: nat | j < |s.table| ensures j in Climbers(s', i) <==> j in Climbers(s, i) {
      TickKeepsKind(s, s1, hz, j);
      if switch {
        YieldKeepsKind(s1, s', j);
      }
    }
  }

  lemma PickedOnPass(s: Sys, s': Sys, hz: Hz, i: nat, level: Level)
    requires Passes(s, s', hz, i, level)
    ensures JustPicked(s') && s'.current in Climbers(s, i)
  {
    WinnerOvertakes(s, s', hz, i, level);
    SlotAfter(s, s', hz, i, level, s'.current);
    NoneHigher(s, s', hz, i, level, s'.current);
  }

  lemma WinnerNearer(s: Sys, s': Sys, hz: Hz, i: nat, level: Level)
    requires Passes(s, s', hz, i, level)
    requires var p := s.table[s'.current]; p.waited == 9 && p.level < Reached(s, i)
    ensures Dist(|s.table|, s.current, s'.current) < Dist(|s.table|, s.current, i)
  {
    WinnerOvertakes(s, s', hz, i, level);
    NoneHigher(s, s', hz, i, level, s'.current);
  }

  lemma HandedOnPass(s: Sys, s': Sys, hz: Hz, i: nat, level: Level, rivals: set<nat>)
    requires Passes(s, s', hz, i, level) && JustPicked(s) && rivals == Climbers(s, i) && s.current in rivals
    ensures Handed(s, s', rivals, i)
  {
    WinnerOvertakes(s, s', hz, i, level);
    LosesToHigher(s, s', hz, i, level);
    SlotAfter(s, s', hz, i, level, i);
    forall j: nat | j in rivals
      ensures s'.table[j].level == s.table[j].level
      ensures j == s'.current ==> s'.table[j].waited == 0
      ensures j == s.current ==> s'.table[j].waited == s.table[j].waited
      ensures j != s.current && j != s'.current ==> s'.table[j].waited == s.table[j].waited + 1
    {
      SlotAfter(s, s', hz, i, level, j);
      NoneHigher(s, s', hz, i, level, j);
    }
    if s.table[s'.current].waited == 9 && s.table[s'.current].level < Reached(s, i) {
      WinnerNearer(s, s', hz, i, level);
    }
  }

  // ---------- Ten classes ----------

  ghost predicate HandedRun(states: seq<Sys>, rivals: set<nat>, i: nat) {
    forall k :: 0 <= k < |states| - 1 ==> Handed(states[k], states[k + 1], rivals, i)
  }

  /** The rivals that wait and have a waiting time with the given last digit. */
  ghost function Class(s: Sys, rivals: set<nat>, digit: nat): set<nat> {
    set j | j in rivals && j != s.current && j < |s.table| && s.table[j].waited % AGING_TICKS == digit
  }

  /** Whoever had the CPU does not win again before its tenth tick of waiting. */
  lemma {:induction false} WaitsTen(states: seq<Sys>, rivals: set<nat>, i: nat, k: nat, m: nat)
    requires HandedRun(states, rivals, i) && 1 <= m <= 10 && k + m < |states|
    ensures var c := states[k].current; 0 <= c < |states[k + m].table| && states[k + m].current != c
    ensures states[k + m].table[states[k].current].waited == m - 1
  {
    assert Handed(states[k], states[k + 1], rivals, i);
    if m > 1 {
      WaitsTen(states, rivals, i, k, m - 1);
      assert Handed(states[k + m - 1], states[k + m - 1 + 1], rivals, i);
    }
  }

  /** Whoever waits has either waited all the time, or for less than the time. */
  lemma {:induction false} WaitedAllTheTime(states: seq<Sys>, rivals: set<nat>, i: nat, k: nat, m: nat, j: nat)
    requires HandedRun(states, rivals, i) && 1 <= m && k + m < |states| && j in rivals && j != states[k].current
    ensures j < |states[k].table| && j < |states[k + m].table|
    ensures j == states[k + m].current || states[k + m].table[j].waited <= m - 2 ||
      (states[k + m].table[j].waited == states[k].table[j].waited + m && j != states[k + 1].current)
  {
    assert Handed(states[k], states[k + 1], rivals, i);
    if m > 1 {
      WaitedAllTheTime(states, rivals, i, k, m - 1, j);
      assert Handed(states[k + m - 1], states[k + m - 1 + 1], rivals, i);
    }
  }

  lemma DueBefore(states: seq<Sys>, rivals: set<nat>, i: nat, k: nat, m: nat, j: nat)
    requires HandedRun(states, rivals, i) && 0 < m < 10 && k + m < |states| && j in Class(states[k + m], rivals, 9)
    ensures j in Class(states[k], rivals, 9 - m)
  {
    if j == states[k].current {
      WaitsTen(states, rivals, i, k, m);
    } else {
      WaitedAllTheTime(states, rivals, i, k, m, j);
    }
  }

  /** The class whose turn it is after m ticks, seen from before them. */
  lemma ClassBefore(states: seq<Sys>, rivals: set<nat>, i: nat, k: nat, m: nat)
    requires HandedRun(states, rivals, i) && m < 10 && k + m < |states| && k + 1 < |states|
    ensures Class(states[k + m], rivals, 9) <= Class(states[k], rivals, 9 - m)
  {
    var now := Class(states[k + m], rivals, 9);
    if m > 0 {
      forall j | j in now ensures j in Class(states[k], rivals, 9 - m) {
        DueBefore(states, rivals, i, k, m, j);
      }
    }
  }

  /** With one process in the class whose turn it is, ten ticks later it holds just the
      process that had the CPU. */
  lemma OneTakesItsPlace(states: seq<Sys>, rivals: set<nat>, i: nat, k: nat)
    requires HandedRun(states, rivals, i) && k + 10 < |states| && |Class(states[k], rivals, 9)| <= 1
    ensures states[k].current >= 0 && Class(states[k + 10], rivals, 9) <= {states[k].current}
  {
    assert Handed(states[k], states[k + 1], rivals, i);
    var w, now := states[k + 1].current, Class(states[k + 10], rivals, 9);
    forall j | j in now ensures j == states[k].current {
      if j != states[k].current {
        WaitedAllTheTime(states, rivals, i, k, 10, j);
        assert j in Class(states[k], rivals, 9) && w in Class(states[k], rivals, 9);
        AtMostOne(Class(states[k], rivals, 9), j, w);
      }
    }
  }

  lemma AtMostOne(s: set<nat>, a: nat, b: nat)
    requires |s| <= 1 && a in s && b in s
    ensures a == b
  {
    assert |s - {a}| == |s| - 1 && s - {a} == {};
  }

  /** So the scan starts farther from slot i every ten ticks. */
  lemma StartsFarther(states: seq<Sys>, rivals: set<nat>, i: nat, k: nat)
    requires HandedRun(states, rivals, i) && k + 11 < |states| && |Class(states[k], rivals, 9)| <= 1
    ensures |Class(states[k + 10], rivals, 9)| <= 1
    ensures var n, c, c' := |states[k].table|, states[k].current, states[k + 10].current;
      |states[k + 10].table| == n && 0 <= c < n && 0 <= c' < n && i < n && Dist(n, c, i) < Dist(n, c', i)
  {
    var s, s' := states[k + 10], states[k + 10 + 1];
    assert Handed(states[k], states[k + 1], rivals, i) && Handed(s, s', rivals, i);
    var c := states[k].current;
    OneTakesItsPlace(states, rivals, i, k);
    assert s'.current in Class(s, rivals, 9) && s'.current == c;
    assert Class(s, rivals, 9) == {c};
    WaitsTen(states, rivals, i, k, 10);
    LevelsStay(states, rivals, i, k, 10, c);
  }

  lemma {:induction false} LevelsStay(states: seq<Sys>, rivals: set<nat>, i: nat, k: nat, m: nat, j: nat)
    requires HandedRun(states, rivals, i) && k + m < |states| && k + 1 < |states| && j in rivals
    ensures |states[k + m].table| == |states[k].table| && j < |states[k].table| && i < |states[k].table|
    ensures states[k + m].table[j].level == states[k].table[j].level
    ensures Reached(states[k + m], i) == Reached(states[k], i)
  {
    assert Handed(states[k], states[k + 1], rivals, i);
    if m > 0 {
      LevelsStay(states, rivals, i, k, m - 1, j);
      assert Handed(states[k + m - 1], states[k + m - 1 + 1], rivals, i);
    }
  }

  ghost function ClassesBelow(s: Sys, rivals: set<nat>, digits: nat): set<nat> {
    set j | j in rivals && j != s.current && j < |s.table| && s.table[j].waited % AGING_TICKS < digits
  }

  /** Two waiting rivals in each class are twenty. */
  lemma {:induction false} ClassesAddUp(s: Sys, rivals: set<nat>, digits: nat)
    requires forall d: nat :: d < digits ==> |Class(s, rivals, d)| >= 2
    ensures |ClassesBelow(s, rivals, digits)| >= 2 * digits
  {
    if digits > 0 {
      ClassesAddUp(s, rivals, digits - 1);
      var fewer, last := ClassesBelow(s, rivals, digits - 1), Class(s, rivals, digits - 1);
      assert ClassesBelow(s, rivals, digits) == fewer + last && fewer !! last;
    }
  }

  /** With at most twenty rivals, one of ten ticks finds a single process in its class. */
  lemma SomeClassHasOne(states: seq<Sys>, rivals: set<nat>, i: nat) returns (k: nat)
    requires HandedRun(states, rivals, i) && 10 < |states| && |rivals| <= MAX_CLIMBERS
    ensures k < 10 && |Class(states[k], rivals, 9)| <= 1
  {
    if m: nat :| m < 10 && |Class(states[m], rivals, 9)| <= 1 {
      k := m;
    } else {
      var s := states[0];
      assert Handed(states[0], states[0 + 1], rivals, i);
      forall d: nat | d < 10 ensures |Class(s, rivals, d)| >= 2 {
        ClassBefore(states, rivals, i, 0, 9 - d);
        SubsetSize(Class(states[9 - d], rivals, 9), Class(s, rivals, d));
      }
      ClassesAddUp(s, rivals, 10);
      SubsetSize(ClassesBelow(s, rivals, 10) + {s.current}, rivals);
      assert false;
    }
  }

  /** After every ten ticks one step farther. */
  lemma {:induction false} FartherAndFarther(states: seq<Sys>, rivals: set<nat>, i: nat, k: nat, q: nat)
    requires HandedRun(states, rivals, i) && k + 10 * q + 1 < |states| && |Class(states[k], rivals, 9)| <= 1
    ensures |states[k + 10 * q].table| == |states[k].table| && |Class(states[k + 10 * q], rivals, 9)| <= 1
    ensures var n, c := |states[k].table|, states[k + 10 * q].current; 0 <= c < n && i < n && q < Dist(n, c, i)
    decreases q
  {
    assert Handed(states[k], states[k + 1], rivals, i);
    if q > 0 {
      FartherAndFarther(states, rivals, i, k, q - 1);
      StartsFarther(states, rivals, i, k + 10 * (q - 1));
      assert k + 10 * (q - 1) + 10 == k + 10 * q;
    }
  }

  /** The longest time of being passed over without a break. */
  function Longest(n: nat): nat {
    10 * n + 10
  }

  lemma ComesToAnEnd(states: seq<Sys>, rivals: set<nat>, i: nat)
    requires HandedRun(states, rivals, i) && states != [] && |rivals| <= MAX_CLIMBERS
    ensures |states| <= Longest(|states[0].table|)
  {
    var n := |states[0].table|;
    if |states| > Longest(n) {
      var k := SomeClassHasOne(states, rivals, i);
      var j :| j in rivals by {
        assert Handed(states[0], states[0 + 1], rivals, i);
      }
      LevelsStay(states, rivals, i, 0, k, j);
      FartherAndFarther(states, rivals, i, k, n);
    }
  }

  // ---------- Counting ----------

  function Trues(b: seq<bool>): (n: nat)
    ensures n <= |b|
  {
    if b == [] then 0 else (if b[0] then 1 else 0) + Trues(b[1..])
  }

  ghost predicate AllTrue(b: seq<bool>, x: nat, y: nat)
    requires x <= y <= |b|
  {
    forall k :: x <= k < y ==> b[k]
  }

  ghost predicate StreaksAtMost(b: seq<bool>, most: nat) {
    forall x: nat, y: nat :: x <= y <= |b| && AllTrue(b, x, y) ==> y - x <= most
  }

  /** The length of the first streak. */
  ghost function Lead(b: seq<bool>): (l: nat)
    ensures l <= |b| && AllTrue(b, 0, l)
  {
    if b == [] || !b[0] then 0 else 1 + Lead(b[1..])
  }

  predicate FewFor(times: nat, lead: nat, others: nat, most: nat) {
    times <= lead + most * others
  }

  lemma AnotherStreak(times: nat, lead: nat, others: nat, most: nat)
    requires lead <= most && FewFor(times, lead, others, most)
    ensures FewFor(times, 0, others + 1, most)
  {
    DistributeOne(others, most);
  }

  lemma StreaksInTail(b: seq<bool>, most: nat)
    requires StreaksAtMost(b, most) && b != []
    ensures StreaksAtMost(b[1..], most)
  {
    var tail := b[1..];
    forall x: nat, y: nat | x <= y <= |tail| && AllTrue(tail, x, y) ensures y - x <= most {
      forall k | x + 1 <= k < y + 1 ensures b[k] {
        assert tail[k - 1];
      }
      assert AllTrue(b, x + 1, y + 1);
    }
  }

  /** Streaks of at most `most`: one at the start and one after each other tick. */
  lemma {:induction false} LeadAndStreaks(b: seq<bool>, most: nat)
    requires StreaksAtMost(b, most)
    ensures FewFor(Trues(b), Lead(b), |b| - Trues(b), most) && Lead(b) <= most
  {
    assert AllTrue(b, 0, Lead(b));
    if b != [] {
      StreaksInTail(b, most);
      LeadAndStreaks(b[1..], most);
      if !b[0] {
        AnotherStreak(Trues(b[1..]), Lead(b[1..]), |b[1..]| - Trues(b[1..]), most);
      }
    }
  }

  // ---------- Whole runs ----------

  predicate AllTicks(acts: seq<Action>) {
    forall k :: 0 <= k < |acts| ==> acts[k] == TickStep
  }

  ghost predicate Settled(s: Sys, i: nat, rivals: set<nat>) {
    OnlyCurrentRuns(s) && Climbers(s, i) == rivals
  }

  ghost predicate TickRun(states: seq<Sys>, acts: seq<Action>, hz: Hz, i: nat, level: Level, rivals: set<nat>) {
    && WaitingRun(states, acts, hz, i, level)
    && AllTicks(acts) && forall k :: 0 <= k < |states| ==> Settled(states[k], i, rivals)
  }

  lemma {:induction false} RivalsStay(
    states: seq<Sys>, acts: seq<Action>, hz: Hz, i: nat, level: Level, rivals: set<nat>, k: nat)
    requires WaitingRun(states, acts, hz, i, level) && AllTicks(acts) && Settled(states[0], i, rivals) && k < |states|
    ensures Settled(states[k], i, rivals)
  {
    if k > 0 {
      RivalsStay(states, acts, hz, i, level, rivals, k - 1);
      assert Step(states[k - 1], acts[k - 1], states[k - 1 + 1], hz, i);
      OneRunning(states[k - 1], hz);
      ClimbersKept(states[k - 1], states[k], hz, i);
    }
  }

  lemma PassesAt(states: seq<Sys>, acts: seq<Action>, hz: Hz, i: nat, level: Level, rivals: set<nat>, k: nat)
    requires TickRun(states, acts, hz, i, level, rivals) && k < |acts| && PassedOver(states[k], acts[k], hz, i)
    ensures Passes(states[k], states[k + 1], hz, i, level)
    ensures JustPicked(states[k + 1]) && states[k + 1].current in rivals
  {
    assert Step(states[k], acts[k], states[k + 1], hz, i);
    PickedOnPass(states[k], states[k + 1], hz, i, level);
  }

  /** How often in a row slot i can be passed over. */
  lemma Streak(states: seq<Sys>, acts: seq<Action>, hz: Hz, i: nat, level: Level, rivals: set<nat>)
    requires TickRun(states, acts, hz, i, level, rivals) && |rivals| <= MAX_CLIMBERS
    requires forall k :: 0 <= k < |acts| ==> PassedOver(states[k], acts[k], hz, i)
    ensures |acts| <= Longest(|states[0].table|)
  {
    if acts != [] {
      var rest := states[1..];
      forall k | 0 <= k < |rest| - 1 ensures Handed(rest[k], rest[k + 1], rivals, i) {
        PassesAt(states, acts, hz, i, level, rivals, k);
        PassesAt(states, acts, hz, i, level, rivals, k + 1);
        HandedOnPass(states[k + 1], states[k + 1 + 1], hz, i, level, rivals);
      }
      ComesToAnEnd(rest, rivals, i);
    }
  }

  /** On which ticks slot i is passed over. */
  ghost function Passed(states: seq<Sys>, acts: seq<Action>, hz: Hz, i: nat): (b: seq<bool>)
    requires |states| == |acts| + 1 && forall k :: 0 <= k < |states| ==> CurrentOk(states[k]) && i < |states[k].table|
    ensures |b| == |acts|
  {
    seq(|acts|, k requires 0 <= k < |acts| => PassedOver(states[k], acts[k], hz, i))
  }

  lemma {:induction false} TimesAreTrues(states: seq<Sys>, acts: seq<Action>, hz: Hz, i: nat)
    requires |states| == |acts| + 1 && forall k :: 0 <= k < |states| ==> CurrentOk(states[k]) && i < |states[k].table|
    ensures TimesPassedOver(states, acts, hz, i) == Trues(Passed(states, acts, hz, i))
    decreases |acts|
  {
    if acts != [] {
      TimesAreTrues(states[1..], acts[1..], hz, i);
      assert Passed(states, acts, hz, i)[1..] == Passed(states[1..], acts[1..], hz, i);
    }
  }

  lemma StreakWithin(
    states: seq<Sys>, acts: seq<Action>, hz: Hz, i: nat, level: Level, rivals: set<nat>, x: nat, y: nat)
    requires TickRun(states, acts, hz, i, level, rivals) && |rivals| <= MAX_CLIMBERS && x <= y <= |acts|
    requires AllTrue(Passed(states, acts, hz, i), x, y)
    ensures y - x <= Longest(|states[0].table|)
  {
    var states', acts' := states[x..y + 1], acts[x..y];
    forall k | 0 <= k < |acts'|
      ensures Step(states'[k], acts'[k], states'[k + 1], hz, i) && PassedOver(states'[k], acts'[k], hz, i)
    {
      assert Step(states[x + k], acts[x + k], states[x + k + 1], hz, i);
      assert Passed(states, acts, hz, i)[x + k];
    }
    Streak(states', acts', hz, i, level, rivals);
  }

  lemma InTickRun(states: seq<Sys>, acts: seq<Action>, hz: Hz, i: nat, level: Level, rivals: set<nat>)
    requires WaitingRun(states, acts, hz, i, level) && AllTicks(acts) && Settled(states[0], i, rivals)
    ensures TickRun(states, acts, hz, i, level, rivals)
  {
    forall k | 0 <= k < |states| ensures Settled(states[k], i, rivals) {
      RivalsStay(states, acts, hz, i, level, rivals, k);
    }
  }

  lemma StreaksBounded(
    states: seq<Sys>, acts: seq<Action>, hz: Hz, i: nat, level: Level, rivals: set<nat>, b: seq<bool>, most: nat)
    requires TickRun(states, acts, hz, i, level, rivals) && |rivals| <= MAX_CLIMBERS
    requires b == Passed(states, acts, hz, i) && most == Longest(|states[0].table|)
    ensures StreaksAtMost(b, most)
  {
    forall x: nat, y: nat | x <= y <= |b| && AllTrue(b, x, y) ensures y - x <= most {
      StreakWithin(states, acts, hz, i, level, rivals, x, y);
    }
  }

  /** On which ticks slot i is passed over, and that they come in short streaks. */
  lemma Recorded(states: seq<Sys>, acts: seq<Action>, hz: Hz, i: nat, level: Level, rivals: set<nat>, most: nat)
    returns (b: seq<bool>)
    requires TickRun(states, acts, hz, i, level, rivals) && |rivals| <= MAX_CLIMBERS
    requires most == Longest(|states[0].table|)
    ensures |b| == |acts| && Trues(b) == TimesPassedOver(states, acts, hz, i) && StreaksAtMost(b, most)
  {
    b := Passed(states, acts, hz, i);
    StreaksBounded(states, acts, hz, i, level, rivals, b, most);
    TimesAreTrues(states, acts, hz, i);
  }

  lemma {:induction false} CountTicks(acts: seq<Action>)
    requires AllTicks(acts)
    ensures Ticks(acts) == |acts|
  {
    if acts != [] {
      CountTicks(acts[1..]);
    }
  }

  lemma SumUp(times: nat, lead: nat, others: nat, most: nat, wait: nat)
    requires lead <= most && FewFor(times, lead, others, most) && others < wait
    ensures times + others < (most + 1) * wait
  {
    MulMonotone(most, others + 1, wait);
    DistributeOne(others, most);
    DistributeOne(most, wait);
  }

  lemma InAll(b: seq<bool>, most: nat, wait: nat)
    requires StreaksAtMost(b, most) && |b| < wait + Trues(b)
    ensures |b| < (most + 1) * wait
  {
    LeadAndStreaks(b, most);
    SumUp(Trues(b), Lead(b), |b| - Trues(b), most, wait);
  }

  lemma ShortStreaks(states: seq<Sys>, acts: seq<Action>, hz: Hz, i: nat, level: Level) returns (b: seq<bool>)
    requires WaitingRun(states, acts, hz, i, level) && AllTicks(acts)
    requires OnlyCurrentRuns(states[0]) && |Climbers(states[0], i)| <= MAX_CLIMBERS
    ensures |b| == |acts| == Ticks(acts) && Trues(b) == TimesPassedOver(states, acts, hz, i)
    ensures StreaksAtMost(b, Longest(|states[0].table|))
  {
    InTickRun(states, acts, hz, i, level, Climbers(states[0], i));
    b := Recorded(states, acts, hz, i, level, Climbers(states[0], i), Longest(|states[0].table|));
    CountTicks(acts);
  }

  /** The bound on a wait without being passed over. */
  function Unpassed(n: nat, p: Process): nat {
    if p.waited + MaxWait(n) < WORD_SIZE then TicksToTop(p) + RR_SLICE_TICKS * n else 2 * MaxWait(n)
  }

  lemma Counted(states: seq<Sys>, acts: seq<Action>, hz: Hz, i: nat, level: Level, most: nat, wait: nat)
    requires WaitingRun(states, acts, hz, i, level) && AllTicks(acts)
    requires OnlyCurrentRuns(states[0]) && |Climbers(states[0], i)| <= MAX_CLIMBERS
    requires Ticks(acts) < wait + TimesPassedOver(states, acts, hz, i) && most == Longest(|states[0].table|)
    ensures |acts| < (most + 1) * wait
  {
    var b := ShortStreaks(states, acts, hz, i, level);
    InAll(b, most, wait);
  }

  /** NO STARVATION BY TICKS ALONE among twenty rivals: the wait of a normal process is
      bounded. */
  lemma NoStarvation(states: seq<Sys>, acts: seq<Action>, hz: Hz, i: nat, level: Level)
    requires WaitingRun(states, acts, hz, i, level) && MaxWait(|states[0].table|) < WORD_SIZE && AllTicks(acts)
    requires OnlyCurrentRuns(states[0]) && |Climbers(states[0], i)| <= MAX_CLIMBERS
    ensures var n, p := |states[0].table|, states[0].table[i]; |acts| < (Longest(n) + 1) * Unpassed(n, p)
  {
    var n, p := |states[0].table|, states[0].table[i];
    WaitBound(states, acts, hz, i, level);
    Counted(states, acts, hz, i, level, Longest(n), Unpassed(n, p));
  }
}
